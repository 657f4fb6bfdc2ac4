/**
 * The world manager's instance bookkeeping that is not a tick: simulation
 * IDs and the remap of a client's temporary ID, the deferral of service
 * (un)registration while the services are locked and its flush through
 * the deferred-config delegate, and the frame pair GetSyncStateAtTime
 * samples. One model definition's data store is modelled; the delegate's
 * handles are the positions of its lambdas in the invocation list.
 */
module InstanceLifecycle {
  import opened Common
  import opened ServiceFlags
  import opened ServiceRegistry
  import opened Bits

  // ---------------------------------------------------------------------
  // Simulation IDs
  // ---------------------------------------------------------------------

  datatype IdCounters = IdCounters(instanceSpawnCounter: int, tempClientSpawnCount: int)

  /** The member initialisers: server IDs start at 1, temporary client IDs at -2. */
  const INITIAL_COUNTERS: IdCounters := IdCounters(1, -2)

  /** Server IDs still to come are positive, client ones below INDEX_NONE. */
  predicate CountersValid(c: IdCounters)
  {
    c.instanceSpawnCounter >= 1 && c.tempClientSpawnCount <= -2
  }

  /**
   * CreateSimulationID: a client takes the temporary counter and moves it
   * down, a server takes the spawn counter and moves it up, so the ID just
   * handed out lies outside the range the counters will hand out next.
   */
  function CreateSimulationID(c: IdCounters, forClient: bool): (r: (int, IdCounters))
    ensures CountersValid(c) ==> CountersValid(r.1)
    ensures forClient ==> r.1.tempClientSpawnCount < r.0 == c.tempClientSpawnCount && r.1.instanceSpawnCounter == c.instanceSpawnCounter
    ensures !forClient ==> c.instanceSpawnCounter == r.0 < r.1.instanceSpawnCounter && r.1.tempClientSpawnCount == c.tempClientSpawnCount
    ensures CountersValid(c) ==> (forClient ==> r.0 < INDEX_NONE) && (!forClient ==> r.0 > 0)
  {
    if forClient then (c.tempClientSpawnCount, c.(tempClientSpawnCount := c.tempClientSpawnCount - 1))
    else (c.instanceSpawnCounter, c.(instanceSpawnCounter := c.instanceSpawnCounter + 1))
  }

  /**
   * A run of CreateSimulationID calls, true for a client request. Client
   * IDs fall in (final client counter, first client counter], server IDs
   * in [first spawn counter, final spawn counter).
   */
  function IssueIds(c: IdCounters, forClient: seq<bool>): (r: (seq<int>, IdCounters))
    ensures |r.0| == |forClient|
    ensures r.1.tempClientSpawnCount <= c.tempClientSpawnCount && r.1.instanceSpawnCounter >= c.instanceSpawnCounter
    ensures forall i :: 0 <= i < |forClient| && forClient[i] ==> r.1.tempClientSpawnCount < r.0[i] <= c.tempClientSpawnCount
    ensures forall i :: 0 <= i < |forClient| && !forClient[i] ==> c.instanceSpawnCounter <= r.0[i] < r.1.instanceSpawnCounter
    decreases |forClient|
  {
    if |forClient| == 0 then ([], c)
    else
      var first := CreateSimulationID(c, forClient[0]);
      var rest := IssueIds(first.1, forClient[1..]);
      ([first.0] + rest.0, rest.1)
  }

  /**
   * From valid counters every issued ID is distinct from every other, no
   * client ID is INDEX_NONE or a server ID, and no server ID is 0.
   */
  lemma {:induction false} IssuedIdsDistinct(c: IdCounters, forClient: seq<bool>)
    requires CountersValid(c)
    ensures var ids := IssueIds(c, forClient).0;
      forall i, j :: 0 <= i < j < |ids| ==> ids[i] != ids[j]
    ensures var ids := IssueIds(c, forClient).0;
      forall i :: 0 <= i < |ids| ==> (forClient[i] ==> ids[i] < INDEX_NONE) && (!forClient[i] ==> ids[i] >= 1)
    decreases |forClient|
  {
    if |forClient| > 0 {
      var first := CreateSimulationID(c, forClient[0]);
      var rest := IssueIds(first.1, forClient[1..]);
      IssuedIdsDistinct(first.1, forClient[1..]);
      var ids := IssueIds(c, forClient).0;
      assert ids == [first.0] + rest.0;
      forall i, j | 0 <= i < j < |ids|
        ensures ids[i] != ids[j]
      {
        if i == 0 {
          assert ids[j] == rest.0[j - 1];
          assert forClient[j] == forClient[1..][j - 1];
        }
      }
      forall i | 0 <= i < |ids|
        ensures (forClient[i] ==> ids[i] < INDEX_NONE) && (!forClient[i] ==> ids[i] >= 1)
      {
        if i > 0 {
          assert ids[i] == rest.0[i - 1];
          assert forClient[i] == forClient[1..][i - 1];
        }
      }
    }
  }

  /**
   * RemapClientSimulationID: the server ID takes over the record kept
   * under the client ID (a default record if there was none) and the
   * client ID's entry goes. Find-or-add on the server ID first, then the
   * removal of the client ID, so equal IDs leave no entry.
   */
  function RemapClientSimulationID(instances: map<int, InstanceData>, clientId: int, serverId: int): (r: map<int, InstanceData>)
    ensures clientId !in r
    ensures clientId != serverId ==> serverId in r && r[serverId] == if clientId in instances then instances[clientId] else NewInstanceData()
    ensures forall x :: x != clientId && x != serverId ==> (x in r <==> x in instances) && (x in r ==> r[x] == instances[x])
  {
    var moved := if clientId in instances then instances[clientId] else NewInstanceData();
    instances[serverId := moved] - {clientId}
  }

  /** Remapping to an unused ID and back restores the map. */
  lemma RemapRoundTrip(instances: map<int, InstanceData>, clientId: int, serverId: int)
    requires clientId in instances && serverId !in instances && clientId != serverId
    ensures RemapClientSimulationID(RemapClientSimulationID(instances, clientId, serverId), serverId, clientId) == instances
  {
    var back := RemapClientSimulationID(RemapClientSimulationID(instances, clientId, serverId), serverId, clientId);
    assert back.Keys == instances.Keys;
  }

  /** A remap moves the record and so keeps every recorded mask valid. */
  lemma RemapKeepsStoreValid(instances: map<int, InstanceData>, clientId: int, serverId: int)
    requires forall id :: id in instances ==> ValidMask(instances[id].serviceMask)
    ensures var r := RemapClientSimulationID(instances, clientId, serverId);
      forall id :: id in r ==> ValidMask(r[id].serviceMask)
  {
    assert ValidMask(NewInstanceData().serviceMask);
  }

  // ---------------------------------------------------------------------
  // Deferred service configuration
  // ---------------------------------------------------------------------

  /** The lambdas ConfigureInstance and UnregisterInstance add while the services are locked. */
  datatype DeferredCall =
    | DeferredRegister(id: int, mask: nat)
    | DeferredUnregister(id: int)

  /**
   * The lock flag, the services' instance sets, the data store with its
   * DeferredRegisterHandle map, and the delegate's invocation list.
   */
  datatype ServiceConfig<F, C, S, D> = ServiceConfig(
    locked: bool,
    reg: Registry,
    store: DataStore<F, C, S, D>,
    registerHandles: map<int, nat>,
    calls: seq<DeferredCall>)

  predicate IsRegisterFor(c: DeferredCall, id: int)
  {
    c.DeferredRegister? && c.id == id
  }

  /** Every recorded handle names a deferred register of its own ID. */
  predicate HandlesOk<F, C, S, D>(sc: ServiceConfig<F, C, S, D>)
  {
    forall id :: id in sc.registerHandles ==>
      sc.registerHandles[id] < |sc.calls| && IsRegisterFor(sc.calls[sc.registerHandles[id]], id)
  }

  /** A recorded handle names the ID's most recent deferred register. */
  predicate HandlesLatest<F, C, S, D>(sc: ServiceConfig<F, C, S, D>)
  {
    forall id, j :: id in sc.registerHandles && sc.registerHandles[id] < j < |sc.calls| ==> !IsRegisterFor(sc.calls[j], id)
  }

  /** Registry and store are well formed, queued masks use only service bits, handles are sound. */
  predicate ValidConfig<F, C, S, D>(sc: ServiceConfig<F, C, S, D>)
  {
    ValidRegistry(sc.reg) && ValidStore(sc.store) &&
    (forall i :: 0 <= i < |sc.calls| && sc.calls[i].DeferredRegister? ==> ValidMask(sc.calls[i].mask)) &&
    HandlesOk(sc)
  }

  /** Every queued registration uses a single group, as the service selection guarantees. */
  predicate QueuedOneGroup<F, C, S, D>(sc: ServiceConfig<F, C, S, D>)
  {
    forall i :: 0 <= i < |sc.calls| && sc.calls[i].DeferredRegister? ==> OneGroup(sc.calls[i].mask)
  }

  /**
   * The registry agrees with the ID's record: a registered ID is in exactly
   * its one-group mask's services, an unregistered one in none.
   */
  predicate IdInv<F, C, S, D>(sc: ServiceConfig<F, C, S, D>, id: int)
    requires ValidRegistry(sc.reg)
  {
    (id in sc.store.instances ==>
      OneGroup(sc.store.instances[id].serviceMask) && Consistent(sc.reg, id, sc.store.instances[id].serviceMask)) &&
    (id !in sc.store.instances ==> forall s :: id !in Members(sc.reg, s))
  }

  /** No record, no map entry and no pending handle of the ID is left in the store. */
  predicate StoreGone<F, C, S, D>(sc: ServiceConfig<F, C, S, D>, id: int)
  {
    id !in sc.store.instances && id !in sc.store.frames && id !in sc.store.clientRecv &&
    id !in sc.store.serverRecv && id !in sc.store.serverRecvIndependent &&
    id !in sc.registerHandles
  }

  /** Nothing of the ID is left: no record, no map entry, no pending handle, no service. */
  predicate Gone<F, C, S, D>(sc: ServiceConfig<F, C, S, D>, id: int)
    requires ValidRegistry(sc.reg)
  {
    StoreGone(sc, id) && forall s :: id !in Members(sc.reg, s)
  }

  /** The store and the handles agree about the ID in both states. */
  predicate SameStoreFor<F, C, S, D>(a: ServiceConfig<F, C, S, D>, b: ServiceConfig<F, C, S, D>, id: int)
  {
    (id in a.store.instances <==> id in b.store.instances) &&
    (id in a.store.instances ==> a.store.instances[id] == b.store.instances[id]) &&
    (id in a.store.frames <==> id in b.store.frames) &&
    (id in a.store.clientRecv <==> id in b.store.clientRecv) &&
    (id in a.store.serverRecv <==> id in b.store.serverRecv) &&
    (id in a.store.serverRecvIndependent <==> id in b.store.serverRecvIndependent) &&
    (id in a.registerHandles <==> id in b.registerHandles) &&
    (id in a.registerHandles ==> a.registerHandles[id] == b.registerHandles[id])
  }

  /** Everything about the ID is the same in both states. */
  predicate SameFor<F, C, S, D>(a: ServiceConfig<F, C, S, D>, b: ServiceConfig<F, C, S, D>, id: int)
    requires ValidRegistry(a.reg) && ValidRegistry(b.reg)
  {
    SameStoreFor(a, b, id) && forall s :: id in Members(a.reg, s) <==> id in Members(b.reg, s)
  }

  lemma RegisterKeepsConsistentWhen(reg: Registry, inst: InstanceData, id: int, mask: nat)
    requires ValidRegistry(reg) && ValidMask(mask) && ValidMask(inst.serviceMask)
    ensures OneGroup(inst.serviceMask) && OneGroup(mask) && Consistent(reg, id, inst.serviceMask) ==>
      Consistent(RegisterInstance(reg, inst, id, mask).0, id, mask)
  {
    if OneGroup(inst.serviceMask) && OneGroup(mask) && Consistent(reg, id, inst.serviceMask) {
      RegisterKeepsConsistent(reg, inst, id, mask);
    }
  }

  lemma UnregisterLeavesNoServiceWhen<F, C, S, D>(reg: Registry, d: DataStore<F, C, S, D>, id: int)
    requires ValidRegistry(reg) && ValidStore(d)
    ensures id in d.instances && OneGroup(d.instances[id].serviceMask) && Consistent(reg, id, d.instances[id].serviceMask) ==>
      forall s :: id !in Members(ServiceRegistry.UnregisterInstance(reg, d, id).0, s)
  {
    if id in d.instances && OneGroup(d.instances[id].serviceMask) && Consistent(reg, id, d.instances[id].serviceMask) {
      UnregisterLeavesNoService(reg, d, id);
    }
  }

  /** Registers the ID with the mask, recording the mask in its instance record. */
  function RegisterNow<F, C, S, D>(sc: ServiceConfig<F, C, S, D>, id: int, mask: nat): (r: ServiceConfig<F, C, S, D>)
    requires ValidRegistry(sc.reg) && ValidStore(sc.store) && ValidMask(mask) && id in sc.store.instances
    ensures ValidRegistry(r.reg) && ValidStore(r.store)
    ensures r.registerHandles == sc.registerHandles && r.calls == sc.calls && r.locked == sc.locked
    ensures r.store.instances == sc.store.instances[id := sc.store.instances[id].(serviceMask := mask)]
    ensures r.store.frames == sc.store.frames && r.store.clientRecv == sc.store.clientRecv
    ensures r.store.serverRecv == sc.store.serverRecv && r.store.serverRecvIndependent == sc.store.serverRecvIndependent
    ensures forall s, x :: x != id ==> (x in Members(r.reg, s) <==> x in Members(sc.reg, s))
  {
    var ri := RegisterInstance(sc.reg, sc.store.instances[id], id, mask);
    sc.(reg := ri.0, store := sc.store.(instances := sc.store.instances[id := ri.1]))
  }

  /** Unregisters the ID and drops it from every map of the store. */
  function UnregisterNow<F, C, S, D>(sc: ServiceConfig<F, C, S, D>, id: int): (r: ServiceConfig<F, C, S, D>)
    requires ValidRegistry(sc.reg) && ValidStore(sc.store)
    ensures ValidRegistry(r.reg) && ValidStore(r.store)
    ensures r.registerHandles == sc.registerHandles && r.calls == sc.calls && r.locked == sc.locked
    ensures r.store.instances == sc.store.instances - {id} && r.store.frames == sc.store.frames - {id}
    ensures r.store.clientRecv == sc.store.clientRecv - {id} && r.store.serverRecv == sc.store.serverRecv - {id}
    ensures r.store.serverRecvIndependent == sc.store.serverRecvIndependent - {id}
    ensures forall s, x :: x != id ==> (x in Members(r.reg, s) <==> x in Members(sc.reg, s))
  {
    var u := ServiceRegistry.UnregisterInstance(sc.reg, sc.store, id);
    sc.(reg := u.0, store := u.1)
  }

  /**
   * The registration tail of ConfigureInstance: unlocked, the instance is
   * registered with its selected services at once; locked, a register
   * lambda is queued and its handle recorded under the ID, replacing any
   * earlier one.
   */
  function ConfigureRegistration<F, C, S, D>(sc: ServiceConfig<F, C, S, D>, id: int, mask: nat): (r: ServiceConfig<F, C, S, D>)
    requires ValidConfig(sc) && ValidMask(mask)
    requires id in sc.store.instances
    ensures ValidConfig(r) && r.locked == sc.locked
    ensures HandlesLatest(sc) ==> HandlesLatest(r)
    ensures QueuedOneGroup(sc) && OneGroup(mask) ==> QueuedOneGroup(r)
    ensures !sc.locked ==> r.calls == sc.calls && id in r.store.instances && r.store.instances[id].serviceMask == mask
    ensures !sc.locked && OneGroup(mask) && IdInv(sc, id) ==> IdInv(r, id) && Consistent(r.reg, id, mask)
    ensures sc.locked ==> r.reg == sc.reg && r.store == sc.store
    ensures sc.locked ==> r.calls == sc.calls + [DeferredRegister(id, mask)] && r.registerHandles == sc.registerHandles[id := |sc.calls|]
  {
    if !sc.locked then
      RegisterKeepsConsistentWhen(sc.reg, sc.store.instances[id], id, mask);
      RegisterNow(sc, id, mask)
    else
      sc.(registerHandles := sc.registerHandles[id := |sc.calls|], calls := sc.calls + [DeferredRegister(id, mask)])
  }

  /** Configuring an ID touches nothing of any other ID. */
  lemma ConfigureRegistrationFrame<F, C, S, D>(sc: ServiceConfig<F, C, S, D>, id: int, mask: nat, x: int)
    requires ValidConfig(sc) && ValidMask(mask) && id in sc.store.instances && x != id
    ensures SameFor(sc, ConfigureRegistration(sc, id, mask), x)
  {
  }

  /**
   * UnregisterInstance: unlocked, the ID leaves its services and every
   * map of the store at once; locked, an unregister lambda is queued.
   */
  function UnregisterInstance<F, C, S, D>(sc: ServiceConfig<F, C, S, D>, id: int): (r: ServiceConfig<F, C, S, D>)
    requires ValidConfig(sc)
    ensures ValidConfig(r) && r.locked == sc.locked
    ensures HandlesLatest(sc) ==> HandlesLatest(r)
    ensures QueuedOneGroup(sc) ==> QueuedOneGroup(r)
    ensures !sc.locked && IdInv(sc, id) && id !in sc.registerHandles ==> Gone(r, id)
    ensures sc.locked ==> r.reg == sc.reg && r.store == sc.store && r.registerHandles == sc.registerHandles
    ensures sc.locked ==> r.calls == sc.calls + [DeferredUnregister(id)]
  {
    if !sc.locked then
      UnregisterLeavesNoServiceWhen(sc.reg, sc.store, id);
      UnregisterNow(sc, id)
    else
      sc.(calls := sc.calls + [DeferredUnregister(id)])
  }

  /** Unregistering an ID touches nothing of any other ID. */
  lemma UnregisterInstanceFrame<F, C, S, D>(sc: ServiceConfig<F, C, S, D>, id: int, x: int)
    requires ValidConfig(sc) && x != id
    ensures SameFor(sc, UnregisterInstance(sc, id), x)
  {
  }

  /**
   * One lambda of the broadcast. A deferred register registers the ID if
   * it still has an instance record (the corrected form also requires it
   * to be the ID's pending registration) and drops the ID's handle; a
   * deferred unregister removes the ID's pending register from the
   * delegate, drops the handle and unregisters the ID.
   */
  function Invoke<F, C, S, D>(sc: ServiceConfig<F, C, S, D>, pos: nat, cancelled: set<nat>, checkPending: bool): (r: (ServiceConfig<F, C, S, D>, set<nat>))
    requires ValidConfig(sc) && pos < |sc.calls|
    ensures ValidConfig(r.0) && r.0.calls == sc.calls && r.0.locked == sc.locked
    ensures r.0.registerHandles == sc.registerHandles - {sc.calls[pos].id}
    ensures cancelled <= r.1
    ensures sc.calls[pos].DeferredUnregister? && sc.calls[pos].id in sc.registerHandles ==>
      r.1 <= cancelled + {sc.registerHandles[sc.calls[pos].id]}
    ensures !(sc.calls[pos].DeferredUnregister? && sc.calls[pos].id in sc.registerHandles) ==> r.1 == cancelled
  {
    match sc.calls[pos]
    case DeferredRegister(id, mask) =>
      var live := id in sc.store.instances && (!checkPending || (id in sc.registerHandles && sc.registerHandles[id] == pos));
      var sc1 := if live then RegisterNow(sc, id, mask) else sc;
      (sc1.(registerHandles := sc1.registerHandles - {id}), cancelled)
    case DeferredUnregister(id) =>
      var cancelled' := if id in sc.registerHandles then cancelled + {sc.registerHandles[id]} else cancelled;
      (UnregisterNow(sc, id).(registerHandles := sc.registerHandles - {id}), cancelled')
  }

  /** A lambda touches nothing of any other ID. */
  lemma InvokeFrame<F, C, S, D>(sc: ServiceConfig<F, C, S, D>, pos: nat, cancelled: set<nat>, checkPending: bool, x: int)
    requires ValidConfig(sc) && pos < |sc.calls| && x != sc.calls[pos].id
    ensures SameFor(sc, Invoke(sc, pos, cancelled, checkPending).0, x)
  {
  }

  /**
   * The positions removed from the delegate during a broadcast are those
   * of deferred registers, and no pending handle names one of them.
   */
  predicate CancelledOk<F, C, S, D>(sc: ServiceConfig<F, C, S, D>, cancelled: set<nat>)
  {
    (forall x :: x in sc.registerHandles ==> sc.registerHandles[x] !in cancelled) &&
    (forall c :: c in cancelled ==> c < |sc.calls| && sc.calls[c].DeferredRegister?)
  }

  lemma InvokeKeepsCancelledOk<F, C, S, D>(sc: ServiceConfig<F, C, S, D>, pos: nat, cancelled: set<nat>, checkPending: bool)
    requires ValidConfig(sc) && pos < |sc.calls| && CancelledOk(sc, cancelled)
    ensures var step := Invoke(sc, pos, cancelled, checkPending);
      CancelledOk(step.0, step.1) && forall x :: x in step.0.registerHandles ==> step.0.registerHandles[x] != pos
  {
    var step := Invoke(sc, pos, cancelled, checkPending);
    var y := sc.calls[pos].id;
    forall x | x in step.0.registerHandles
      ensures step.0.registerHandles[x] !in step.1 && step.0.registerHandles[x] != pos
    {
      assert IsRegisterFor(sc.calls[sc.registerHandles[x]], x);
      if y in sc.registerHandles {
        assert IsRegisterFor(sc.calls[sc.registerHandles[y]], y);
      }
    }
    forall c | c in step.1
      ensures c < |sc.calls| && sc.calls[c].DeferredRegister?
    {
      if c !in cancelled {
        assert IsRegisterFor(sc.calls[sc.registerHandles[y]], y);
      }
    }
  }

  /** A lambda keeps each handle naming the ID's latest deferred register. */
  lemma InvokeKeepsHandlesLatest<F, C, S, D>(sc: ServiceConfig<F, C, S, D>, pos: nat, cancelled: set<nat>, checkPending: bool)
    requires ValidConfig(sc) && pos < |sc.calls| && HandlesLatest(sc)
    ensures HandlesLatest(Invoke(sc, pos, cancelled, checkPending).0)
  {
  }

  /**
   * The lambda at position k-1 of a broadcast: skipped when it was removed
   * earlier in the broadcast, invoked otherwise. Afterwards no handle names
   * that position.
   */
  function BroadcastStep<F, C, S, D>(sc: ServiceConfig<F, C, S, D>, k: nat, cancelled: set<nat>, checkPending: bool): (r: (ServiceConfig<F, C, S, D>, set<nat>))
    requires ValidConfig(sc) && 0 < k <= |sc.calls| && CancelledOk(sc, cancelled)
    ensures ValidConfig(r.0) && r.0.calls == sc.calls && r.0.locked == sc.locked && CancelledOk(r.0, r.1)
    ensures forall x :: x in r.0.registerHandles ==>
      x in sc.registerHandles && r.0.registerHandles[x] == sc.registerHandles[x] && r.0.registerHandles[x] != k - 1
  {
    if k - 1 in cancelled then (sc, cancelled)
    else
      InvokeKeepsCancelledOk(sc, k - 1, cancelled, checkPending);
      Invoke(sc, k - 1, cancelled, checkPending)
  }

  /**
   * Broadcast over positions k-1 down to 0 (the invocation list runs in
   * reverse); a lambda removed during the broadcast is skipped. Every
   * handle of a position it passed is gone afterwards.
   */
  function Broadcast<F, C, S, D>(sc: ServiceConfig<F, C, S, D>, k: nat, cancelled: set<nat>, checkPending: bool): (r: ServiceConfig<F, C, S, D>)
    requires ValidConfig(sc) && k <= |sc.calls| && CancelledOk(sc, cancelled)
    ensures ValidConfig(r) && r.calls == sc.calls && r.locked == sc.locked
    ensures forall x :: x in r.registerHandles ==> x in sc.registerHandles && r.registerHandles[x] == sc.registerHandles[x] && r.registerHandles[x] >= k
    decreases k
  {
    if k == 0 then sc
    else
      var step := BroadcastStep(sc, k, cancelled, checkPending);
      Broadcast(step.0, k - 1, step.1, checkPending)
  }

  /**
   * The flush after a locked section, with the reverse broadcast: the lock is released,
   * the delegate is broadcast and then cleared. No deferred call and no
   * pending handle survives it.
   */
  function FlushAsWritten<F, C, S, D>(sc: ServiceConfig<F, C, S, D>): (r: ServiceConfig<F, C, S, D>)
    requires ValidConfig(sc)
    ensures ValidConfig(r) && !r.locked && r.calls == [] && r.registerHandles == map[]
  {
    var b := Broadcast(sc.(locked := false), |sc.calls|, {}, false);
    assert forall x :: x !in b.registerHandles;
    b.(calls := [])
  }

  /**
   * The corrected flush: a deferred register superseded by a later
   * ConfigureInstance of the same ID is a no-op, so the latest
   * configuration wins despite the reverse order.
   */
  function Flush<F, C, S, D>(sc: ServiceConfig<F, C, S, D>): (r: ServiceConfig<F, C, S, D>)
    requires ValidConfig(sc)
    ensures ValidConfig(r) && !r.locked && r.calls == [] && r.registerHandles == map[]
  {
    var b := Broadcast(sc.(locked := false), |sc.calls|, {}, true);
    assert forall x :: x !in b.registerHandles;
    b.(calls := [])
  }

  // ---------------------------------------------------------------------
  // Properties of the flush
  // ---------------------------------------------------------------------

  /** One lambda keeps the agreement between record and registry, and never revives a gone ID. */
  lemma InvokeKeepsIdInv<F, C, S, D>(sc: ServiceConfig<F, C, S, D>, pos: nat, cancelled: set<nat>, checkPending: bool, id: int)
    requires ValidConfig(sc) && pos < |sc.calls| && QueuedOneGroup(sc) && IdInv(sc, id)
    ensures var r := Invoke(sc, pos, cancelled, checkPending).0;
      IdInv(r, id) && (Gone(sc, id) ==> Gone(r, id)) && (sc.calls[pos] == DeferredUnregister(id) ==> Gone(r, id))
  {
    if sc.calls[pos].id != id {
      InvokeFrame(sc, pos, cancelled, checkPending, id);
    } else {
      match sc.calls[pos]
      case DeferredRegister(_, mask) =>
        if id in sc.store.instances {
          RegisterKeepsConsistentWhen(sc.reg, sc.store.instances[id], id, mask);
        }
      case DeferredUnregister(_) =>
        UnregisterLeavesNoServiceWhen(sc.reg, sc.store, id);
    }
  }

  /** The state of a broadcast whose registry agrees with the ID's record. */
  predicate InvAt<F, C, S, D>(sc: ServiceConfig<F, C, S, D>, k: nat, cancelled: set<nat>, id: int)
  {
    ValidConfig(sc) && k <= |sc.calls| && CancelledOk(sc, cancelled) && QueuedOneGroup(sc) && IdInv(sc, id)
  }

  lemma KeepsIdInvStep<F, C, S, D>(sc: ServiceConfig<F, C, S, D>, k: nat, cancelled: set<nat>, checkPending: bool, id: int)
    requires InvAt(sc, k, cancelled, id) && k > 0
    ensures var step := BroadcastStep(sc, k, cancelled, checkPending);
      InvAt(step.0, k - 1, step.1, id)
  {
    if k - 1 !in cancelled {
      InvokeKeepsIdInv(sc, k - 1, cancelled, checkPending, id);
    }
  }

  /** A whole broadcast keeps the registry in agreement with the ID's record. */
  lemma {:induction false} BroadcastKeepsIdInv<F, C, S, D>(sc: ServiceConfig<F, C, S, D>, k: nat, cancelled: set<nat>, checkPending: bool, id: int)
    requires InvAt(sc, k, cancelled, id)
    ensures IdInv(Broadcast(sc, k, cancelled, checkPending), id)
    decreases k
  {
    if k > 0 {
      var step := BroadcastStep(sc, k, cancelled, checkPending);
      KeepsIdInvStep(sc, k, cancelled, checkPending, id);
      BroadcastKeepsIdInv(step.0, k - 1, step.1, checkPending, id);
    }
  }

  /** The state of a broadcast that has the unregister of the ID at position u still ahead of it, or already behind. */
  predicate UnregisterAhead<F, C, S, D>(sc: ServiceConfig<F, C, S, D>, k: nat, cancelled: set<nat>, id: int, u: nat)
  {
    ValidConfig(sc) && k <= |sc.calls| && CancelledOk(sc, cancelled) &&
    (StoreGone(sc, id) || (u < k && sc.calls[u] == DeferredUnregister(id)))
  }

  /** One lambda keeps the unregister of the ID ahead, or it was that unregister. */
  lemma UnregistersStep<F, C, S, D>(sc: ServiceConfig<F, C, S, D>, k: nat, cancelled: set<nat>, checkPending: bool, id: int, u: nat)
    requires UnregisterAhead(sc, k, cancelled, id, u) && k > 0
    ensures var step := BroadcastStep(sc, k, cancelled, checkPending);
      UnregisterAhead(step.0, k - 1, step.1, id, u)
  {
    if k - 1 in cancelled {
      assert sc.calls[k - 1].DeferredRegister?;
    } else {
      InvokeStoreGone(sc, k - 1, cancelled, checkPending, id);
    }
  }

  /** A lambda never revives a gone ID, and the ID's own unregister leaves it gone. */
  lemma InvokeStoreGone<F, C, S, D>(sc: ServiceConfig<F, C, S, D>, pos: nat, cancelled: set<nat>, checkPending: bool, id: int)
    requires ValidConfig(sc) && pos < |sc.calls|
    ensures var r := Invoke(sc, pos, cancelled, checkPending).0;
      (StoreGone(sc, id) ==> StoreGone(r, id)) && (sc.calls[pos] == DeferredUnregister(id) ==> StoreGone(r, id))
  {
    if sc.calls[pos].id != id {
      InvokeFrame(sc, pos, cancelled, checkPending, id);
    }
  }

  /**
   * Once a broadcast reaches an unregister of the ID, nothing of the ID is
   * left in the store: registers below it find no instance record.
   */
  lemma {:induction false} BroadcastUnregisters<F, C, S, D>(sc: ServiceConfig<F, C, S, D>, k: nat, cancelled: set<nat>, checkPending: bool, id: int, u: nat)
    requires UnregisterAhead(sc, k, cancelled, id, u)
    ensures StoreGone(Broadcast(sc, k, cancelled, checkPending), id)
    decreases k
  {
    if k > 0 {
      var step := BroadcastStep(sc, k, cancelled, checkPending);
      UnregistersStep(sc, k, cancelled, checkPending, id, u);
      BroadcastUnregisters(step.0, k - 1, step.1, checkPending, id, u);
    }
  }

  /**
   * A locked section that unregisters an ID leaves nothing of it after
   * the flush, whatever was configured for it before or after in the
   * same section; in particular a register followed by an unregister
   * ends with the ID in no service.
   */
  lemma FlushUnregisters<F, C, S, D>(sc: ServiceConfig<F, C, S, D>, id: int, u: nat)
    requires ValidConfig(sc) && QueuedOneGroup(sc) && IdInv(sc, id)
    requires u < |sc.calls| && sc.calls[u] == DeferredUnregister(id)
    ensures Gone(FlushAsWritten(sc), id) && Gone(Flush(sc), id)
  {
    var open := sc.(locked := false);
    assert UnregisterAhead(open, |sc.calls|, {}, id, u);
    assert InvAt(open, |sc.calls|, {}, id);
    BroadcastUnregisters(open, |sc.calls|, {}, false, id, u);
    BroadcastUnregisters(open, |sc.calls|, {}, true, id, u);
    BroadcastKeepsIdInv(open, |sc.calls|, {}, false, id);
    BroadcastKeepsIdInv(open, |sc.calls|, {}, true, id);
  }

  /**
   * The state of a corrected broadcast with no unregister of the ID ahead:
   * either its pending (latest) registration is still ahead, or it has been
   * applied and the record carries its mask.
   */
  predicate LatestInv<F, C, S, D>(sc: ServiceConfig<F, C, S, D>, k: nat, cancelled: set<nat>, id: int, mask: nat)
  {
    ValidConfig(sc) && k <= |sc.calls| && CancelledOk(sc, cancelled) && id in sc.store.instances &&
    (forall j :: 0 <= j < k ==> sc.calls[j] != DeferredUnregister(id)) &&
    (id in sc.registerHandles ==>
      sc.registerHandles[id] < k && sc.calls[sc.registerHandles[id]] == DeferredRegister(id, mask) &&
      forall j :: sc.registerHandles[id] < j < k ==> !IsRegisterFor(sc.calls[j], id)) &&
    (id !in sc.registerHandles ==> sc.store.instances[id].serviceMask == mask)
  }

  /** The ID has an instance record carrying the mask. */
  predicate HasMask<F, C, S, D>(sc: ServiceConfig<F, C, S, D>, id: int, mask: nat)
  {
    id in sc.store.instances && sc.store.instances[id].serviceMask == mask
  }

  /**
   * One lambda keeps the invariant: the pending registration applies its
   * mask, and no other lambda changes the ID's record once it is applied.
   */
  lemma LatestStep<F, C, S, D>(sc: ServiceConfig<F, C, S, D>, k: nat, cancelled: set<nat>, id: int, mask: nat)
    requires LatestInv(sc, k, cancelled, id, mask) && k > 0
    ensures var step := BroadcastStep(sc, k, cancelled, true);
      LatestInv(step.0, k - 1, step.1, id, mask)
  {
    if k - 1 !in cancelled {
      if sc.calls[k - 1].id == id {
        LatestStepOwn(sc, k, cancelled, id, mask);
      } else {
        InvokeFrame(sc, k - 1, cancelled, true, id);
      }
    }
  }

  /** The ID's own register is its pending one and applies the mask, or finds no handle and changes nothing. */
  lemma LatestStepOwn<F, C, S, D>(sc: ServiceConfig<F, C, S, D>, k: nat, cancelled: set<nat>, id: int, mask: nat)
    requires LatestInv(sc, k, cancelled, id, mask) && k > 0 && k - 1 !in cancelled && sc.calls[k - 1].id == id
    ensures var step := Invoke(sc, k - 1, cancelled, true);
      LatestInv(step.0, k - 1, step.1, id, mask)
  {
    InvokeKeepsCancelledOk(sc, k - 1, cancelled, true);
    if id in sc.registerHandles {
      assert IsRegisterFor(sc.calls[k - 1], id);
      assert sc.registerHandles[id] == k - 1;
    }
  }

  /**
   * Under the corrected flush, the ID's pending (latest) registration is
   * the one that takes effect, and later lambdas leave it in place.
   */
  lemma {:induction false} BroadcastAppliesLatest<F, C, S, D>(sc: ServiceConfig<F, C, S, D>, k: nat, cancelled: set<nat>, id: int, mask: nat)
    requires LatestInv(sc, k, cancelled, id, mask)
    ensures HasMask(Broadcast(sc, k, cancelled, true), id, mask)
    decreases k
  {
    if k > 0 {
      var step := BroadcastStep(sc, k, cancelled, true);
      LatestStep(sc, k, cancelled, id, mask);
      BroadcastAppliesLatest(step.0, k - 1, step.1, id, mask);
    }
  }

  /**
   * The corrected flush leaves an ID configured several times in one
   * locked section with its most recent mask, as the unlocked path would.
   */
  lemma FlushAppliesLatestMask<F, C, S, D>(sc: ServiceConfig<F, C, S, D>, id: int)
    requires ValidConfig(sc) && HandlesLatest(sc) && QueuedOneGroup(sc) && IdInv(sc, id)
    requires id in sc.store.instances && id in sc.registerHandles
    requires forall j :: 0 <= j < |sc.calls| ==> sc.calls[j] != DeferredUnregister(id)
    ensures var r := Flush(sc); var latest := sc.calls[sc.registerHandles[id]].mask;
      id in r.store.instances && r.store.instances[id].serviceMask == latest && Consistent(r.reg, id, latest)
  {
    var open := sc.(locked := false);
    assert LatestInv(open, |sc.calls|, {}, id, sc.calls[sc.registerHandles[id]].mask);
    assert InvAt(open, |sc.calls|, {}, id);
    BroadcastAppliesLatest(open, |sc.calls|, {}, id, sc.calls[sc.registerHandles[id]].mask);
    BroadcastKeepsIdInv(open, |sc.calls|, {}, true, id);
  }

  /**
   * Under the reverse broadcast, two ConfigureInstance calls for one ID in one locked
   * section leave the first mask: the reverse broadcast runs the newer
   * register first and the stale one last. The corrected flush keeps the
   * second.
   */
  lemma FlushAsWrittenKeepsStaleMask<F, C, S, D>(sc: ServiceConfig<F, C, S, D>, id: int, first: nat, second: nat)
    requires ValidConfig(sc) && sc.locked && sc.calls == [] && id in sc.store.instances
    requires ValidMask(first) && ValidMask(second)
    ensures var q := ConfigureRegistration(ConfigureRegistration(sc, id, first), id, second);
      FlushAsWritten(q).store.instances[id].serviceMask == first &&
      Flush(q).store.instances[id].serviceMask == second
  {
    var q := ConfigureRegistration(ConfigureRegistration(sc, id, first), id, second);
    assert q.calls == [DeferredRegister(id, first), DeferredRegister(id, second)];
    assert q.registerHandles[id] == 1;
    var open := q.(locked := false);
    // reverse order: position 1 registers `second`, then position 0 registers `first`
    var a1 := Invoke(open, 1, {}, false);
    assert a1.1 == {};
    assert a1.0.store.instances[id].serviceMask == second;
    var a0 := Invoke(a1.0, 0, a1.1, false);
    assert a0.0.store.instances[id].serviceMask == first;
    assert Broadcast(a1.0, 1, a1.1, false) == Broadcast(a0.0, 0, a0.1, false);
    // corrected: position 0 is no longer the pending registration
    var c1 := Invoke(open, 1, {}, true);
    assert c1.1 == {};
    assert c1.0.store.instances[id].serviceMask == second;
    var c0 := Invoke(c1.0, 0, c1.1, true);
    assert c0.0.store.instances[id] == c1.0.store.instances[id];
    assert Broadcast(c1.0, 1, c1.1, true) == Broadcast(c0.0, 0, c0.1, true);
  }

  // ---------------------------------------------------------------------
  // GetSyncStateAtTime
  // ---------------------------------------------------------------------

  /** The sync state(s) a time maps to: one frame's state, or two frames' blended by alpha. */
  datatype SyncSample =
    | FrameState(frame: int)
    | Blend(before: int, after: int, alpha: real)

  /** A time whose offset from a frame is a small fraction of a step lies within tolerance of that frame. */
  lemma NearFrame(timeMS: real, step: real, f: int, x: real)
    requires step > 0.0 && timeMS - f as real * step == x * step && RealAbs(x) <= SMALL_NUMBER
    ensures RealAbs(timeMS - f as real * step) <= SMALL_NUMBER * step
  {
    if x < 0.0 {
      assert (-x) * step <= SMALL_NUMBER * step;
    } else {
      assert x * step <= SMALL_NUMBER * step;
    }
  }

  /** Scaling by a positive step keeps strict order. */
  lemma ScaleLess(x: real, y: real, step: real)
    requires step > 0.0 && x < y
    ensures x * step < y * step
  {
    assert y * step - x * step == (y - x) * step;
  }

  /** Dividing a multiple of the step by the step gives the multiplier back. */
  lemma DivExact(x: real, step: real)
    requires step > 0.0
    ensures (x * step) / step == x
  {
  }

  /** The time in steps, split into whole frames and the fraction after them. */
  lemma SplitTime(timeMS: real, step: real)
    requires step > 0.0
    ensures var before := (timeMS / step).Floor; var alpha := timeMS / step - before as real;
      0.0 <= alpha < 1.0 &&
      timeMS == (before as real + alpha) * step &&
      timeMS - before as real * step == alpha * step &&
      timeMS - (before + 1) as real * step == (alpha - 1.0) * step
  {
    var t := timeMS / step;
    assert t * step == timeMS;
    var before := t.Floor;
    assert (before + 1) as real == before as real + 1.0;
  }

  /**
   * GetSyncStateAtTime's choice of frames: none without a frame buffer for
   * the ID; otherwise the time in fixed steps, split into the completed
   * frame and the fraction towards the next, snapping a fraction within
   * tolerance of 1 or 0 to that frame.
   */
  function SampleAtTime(hasFrames: bool, timeMS: real, fixedStepMS: int): (r: Option<SyncSample>)
    requires fixedStepMS > 0
    ensures r.None? <==> !hasFrames
    ensures r.Some? && r.value.Blend? ==>
      r.value.after == r.value.before + 1 && SMALL_NUMBER < r.value.alpha < 1.0 - SMALL_NUMBER &&
      timeMS == (r.value.before as real + r.value.alpha) * fixedStepMS as real
    ensures r.Some? && r.value.FrameState? ==>
      RealAbs(timeMS - r.value.frame as real * fixedStepMS as real) <= SMALL_NUMBER * fixedStepMS as real
  {
    if !hasFrames then None
    else
      var step := fixedStepMS as real;
      var totalFrames := timeMS / step;
      var before := totalFrames.Floor;
      var alpha := totalFrames - before as real;
      SplitTime(timeMS, step);
      if RealAbs(alpha - 1.0) <= SMALL_NUMBER then
        NearFrame(timeMS, step, before + 1, alpha - 1.0);
        Some(FrameState(before + 1))
      else if RealAbs(alpha - 0.0) <= SMALL_NUMBER then
        NearFrame(timeMS, step, before, alpha);
        Some(FrameState(before))
      else
        Some(Blend(before, before + 1, alpha))
  }

  /** A time exactly on a step boundary splits into that frame and no fraction. */
  lemma ExactFrameSplit(timeMS: real, fixedStepMS: int, f: int)
    requires fixedStepMS > 0 && timeMS == f as real * fixedStepMS as real
    ensures (timeMS / fixedStepMS as real).Floor == f
    ensures timeMS / fixedStepMS as real - f as real == 0.0
  {
    DivExact(f as real, fixedStepMS as real);
  }

  /** A time a proper fraction past frame b lies strictly between b and b + 1 steps. */
  lemma FractionBetween(b: real, a: real, step: real, timeMS: real)
    requires step > 0.0 && 0.0 < a < 1.0 && timeMS == (b + a) * step
    ensures b * step < timeMS < (b + 1.0) * step
  {
    ScaleLess(b, b + a, step);
    ScaleLess(b + a, b + 1.0, step);
  }

  /** A blend's frames are the step boundaries on either side of the time. */
  lemma SampleBracketsTime(timeMS: real, fixedStepMS: int)
    requires fixedStepMS > 0
    ensures var r := SampleAtTime(true, timeMS, fixedStepMS);
      r.value.Blend? ==> r.value.before as real * fixedStepMS as real < timeMS < r.value.after as real * fixedStepMS as real
  {
    var r := SampleAtTime(true, timeMS, fixedStepMS);
    if r.value.Blend? {
      assert SMALL_NUMBER > 0.0;
      assert r.value.after as real == r.value.before as real + 1.0;
      FractionBetween(r.value.before as real, r.value.alpha, fixedStepMS as real, timeMS);
    }
  }

  /** A time exactly on a step boundary reads that frame alone. */
  lemma SampleOnBoundary(timeMS: real, fixedStepMS: int, f: int)
    requires fixedStepMS > 0 && timeMS == f as real * fixedStepMS as real
    ensures SampleAtTime(true, timeMS, fixedStepMS) == Some(FrameState(f))
  {
    ExactFrameSplit(timeMS, fixedStepMS, f);
    assert RealAbs(0.0 - 1.0) == 1.0 && RealAbs(0.0 - 0.0) == 0.0;
  }
}
