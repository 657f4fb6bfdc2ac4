/**
 * FJoltNetworkPredictionServiceRegistry for one model definition: which
 * simulation IDs each internal service has registered, how a new service
 * mask is applied as a diff against the old one, how an instance is torn
 * down, and the lazily created per-model data stores. A service's own
 * RegisterInstance/UnregisterInstance is modelled as adding or removing the
 * ID from that service's set.
 */
module ServiceRegistry {
  import opened Common
  import opened Bits
  import opened ServiceFlags

  // ---------------------------------------------------------------------
  // Which services ForEachService reaches
  // ---------------------------------------------------------------------

  /** The services the registry declares storage for; the others have no implementation. */
  predicate Implemented(s: Service)
  {
    !s.FixedExtrapolate? && !s.IndependentExtrapolate? && !s.IndependentSmoothingFinalize?
  }

  /**
   * ForEachService: when the mask holds any fixed bit only fixed services
   * are visited, else only independent ones, and of those only the ones
   * in the mask.
   */
  predicate Visits(mask: nat, s: Service)
  {
    Implemented(s) && HasFlag(mask, s) &&
    if HasAnyFixed(mask) then IsFixedService(s) else HasAnyIndependent(mask) && !IsFixedService(s)
  }

  /** The services a mask names and the registry can serve. */
  predicate Subscribed(mask: nat, s: Service)
  {
    Implemented(s) && HasFlag(mask, s)
  }

  /** The mask does not mix the two groups (it may be empty). */
  predicate OneGroup(mask: nat)
  {
    !(HasAnyFixed(mask) && HasAnyIndependent(mask))
  }

  /** The ensure at the top of RegisterInstance: fixed XOR independent. */
  predicate Expected(mask: nat)
  {
    HasAnyFixed(mask) != HasAnyIndependent(mask)
  }

  /** The expected masks are exactly the non-empty ones that stay in one group. */
  lemma ExpectedIff(mask: nat)
    requires ValidMask(mask)
    ensures Expected(mask) <==> OneGroup(mask) && mask != 0
  {
    HasAnyIff(mask);
    NonzeroHasFlag(mask);
    if mask != 0 {
      var s :| HasFlag(mask, s);
      if IsFixedService(s) {
        assert HasAnyFixed(mask);
      } else {
        assert HasAnyIndependent(mask);
      }
    }
  }

  /** On a mask that stays in one group, ForEachService visits exactly the subscribed services. */
  lemma VisitsOneGroup(mask: nat, s: Service)
    requires ValidMask(mask) && OneGroup(mask)
    ensures Visits(mask, s) <==> Subscribed(mask, s)
  {
    HasAnyIff(mask);
    if HasFlag(mask, s) {
      if IsFixedService(s) {
        assert HasAnyFixed(mask);
      } else {
        assert HasAnyIndependent(mask);
      }
    }
  }

  /** A mixed mask only reaches its fixed services: the independent half is ignored. */
  lemma MixedMaskVisitsFixedOnly(mask: nat, s: Service)
    requires ValidMask(mask) && HasAnyFixed(mask)
    ensures Visits(mask, s) <==> Subscribed(mask, s) && IsFixedService(s)
  {
  }

  /** A mask whose flags are all flags of a one-group mask is one-group too. */
  lemma SubMaskOneGroup(sub: nat, mask: nat)
    requires ValidMask(sub) && ValidMask(mask) && OneGroup(mask)
    requires forall s :: HasFlag(sub, s) ==> HasFlag(mask, s)
    ensures OneGroup(sub)
  {
    HasAnyIff(sub);
    HasAnyIff(mask);
  }

  // ---------------------------------------------------------------------
  // The per-service instance sets
  // ---------------------------------------------------------------------

  /** For every service, in enumerator order, the IDs registered with it. */
  type Registry = seq<set<int>>

  predicate ValidRegistry(reg: Registry)
  {
    |reg| == NUM_SERVICES
  }

  function Members(reg: Registry, s: Service): set<int>
    requires ValidRegistry(reg)
  {
    reg[Index(s)]
  }

  /** A registry where no service has any instance. */
  function EmptyRegistry(): (reg: Registry)
    ensures ValidRegistry(reg)
    ensures forall s :: Members(reg, s) == {}
  {
    seq(NUM_SERVICES, i => {})
  }

  /**
   * ForEachService with Ptr->RegisterInstance(ID) (register) or
   * Ptr->UnregisterInstance(ID): the visited services gain or lose the ID,
   * nothing else changes.
   */
  function ForEachService(reg: Registry, mask: nat, id: int, register: bool): (r: Registry)
    requires ValidRegistry(reg)
    ensures ValidRegistry(r)
    ensures forall s :: Visits(mask, s) ==> (id in Members(r, s) <==> register)
    ensures forall s :: !Visits(mask, s) ==> Members(r, s) == Members(reg, s)
    ensures forall s, x :: x != id ==> (x in Members(r, s) <==> x in Members(reg, s))
  {
    var r := seq(NUM_SERVICES, i requires 0 <= i < NUM_SERVICES =>
      if Visits(mask, FromIndex(i)) then (if register then reg[i] + {id} else reg[i] - {id}) else reg[i]);
    forall s
      ensures r[Index(s)] == if Visits(mask, s) then (if register then reg[Index(s)] + {id} else reg[Index(s)] - {id}) else reg[Index(s)]
    {
      IndexInjective(FromIndex(Index(s)), s);
    }
    r
  }

  /** The ID is in exactly the services its mask subscribes to. */
  predicate Consistent(reg: Registry, id: int, mask: nat)
    requires ValidRegistry(reg)
  {
    forall s :: id in Members(reg, s) <==> Subscribed(mask, s)
  }

  /**
   * RegisterInstance: a first registration visits the whole mask; a
   * re-registration unregisters old & ~new and registers new & ~old. The
   * instance's mask becomes the requested one.
   */
  function RegisterInstance(reg: Registry, inst: InstanceData, id: int, mask: nat): (r: (Registry, InstanceData))
    requires ValidRegistry(reg) && ValidMask(mask) && ValidMask(inst.serviceMask)
    ensures ValidRegistry(r.0)
    ensures r.1 == inst.(serviceMask := mask)
    ensures forall s, x :: x != id ==> (x in Members(r.0, s) <==> x in Members(reg, s))
  {
    var prev := inst.serviceMask;
    var reg' :=
      if prev != 0 then
        ForEachService(ForEachService(reg, MaskMinus(prev, mask), id, false), MaskMinus(mask, prev), id, true)
      else
        ForEachService(reg, mask, id, true);
    (reg', inst.(serviceMask := mask))
  }

  /**
   * A service the old and new masks agree on is not touched, whether both
   * subscribe to it or neither does.
   */
  lemma RegisterLeavesSharedServices(reg: Registry, inst: InstanceData, id: int, mask: nat, s: Service)
    requires ValidRegistry(reg) && ValidMask(mask) && ValidMask(inst.serviceMask)
    requires inst.serviceMask != 0
    requires HasFlag(inst.serviceMask, s) == HasFlag(mask, s)
    ensures Members(RegisterInstance(reg, inst, id, mask).0, s) == Members(reg, s)
  {
  }

  /**
   * With one-group masks, re-registration removes the ID from exactly the
   * services only the old mask subscribed to and adds it to exactly those
   * only the new mask subscribed to.
   */
  lemma RegisterAppliesDiff(reg: Registry, inst: InstanceData, id: int, mask: nat, s: Service)
    requires ValidRegistry(reg) && ValidMask(mask) && ValidMask(inst.serviceMask)
    requires inst.serviceMask != 0 && OneGroup(inst.serviceMask) && OneGroup(mask)
    ensures var r := Members(RegisterInstance(reg, inst, id, mask).0, s);
      (Subscribed(inst.serviceMask, s) && !HasFlag(mask, s) ==> id !in r) &&
      (Subscribed(mask, s) && !HasFlag(inst.serviceMask, s) ==> id in r)
  {
    var prev := inst.serviceMask;
    var un, re := MaskMinus(prev, mask), MaskMinus(mask, prev);
    SubMaskOneGroup(un, prev);
    SubMaskOneGroup(re, mask);
    VisitsOneGroup(un, s);
    VisitsOneGroup(re, s);
  }

  /** A first registration (prev mask None) subscribes the ID to every service the mask names. */
  lemma FirstRegistrationSubscribesAll(reg: Registry, inst: InstanceData, id: int, mask: nat)
    requires ValidRegistry(reg) && ValidMask(mask) && inst.serviceMask == 0
    requires OneGroup(mask) && forall s :: id !in Members(reg, s)
    ensures Consistent(RegisterInstance(reg, inst, id, mask).0, id, mask)
  {
    forall s
      ensures Visits(mask, s) <==> Subscribed(mask, s)
    {
      VisitsOneGroup(mask, s);
    }
  }

  /**
   * Registration keeps the registry in step with the instance's mask:
   * if the ID was in exactly its prev mask's services, it is afterwards in
   * exactly the new mask's, as long as neither mask mixes the groups.
   */
  lemma RegisterKeepsConsistent(reg: Registry, inst: InstanceData, id: int, mask: nat)
    requires ValidRegistry(reg) && ValidMask(mask) && ValidMask(inst.serviceMask)
    requires OneGroup(inst.serviceMask) && OneGroup(mask)
    requires Consistent(reg, id, inst.serviceMask)
    ensures var r := RegisterInstance(reg, inst, id, mask);
      Consistent(r.0, id, r.1.serviceMask)
  {
    var prev := inst.serviceMask;
    if prev == 0 {
      forall s
        ensures id !in Members(reg, s)
      {
        ZeroHasNoBits(Index(s));
      }
      FirstRegistrationSubscribesAll(reg, inst, id, mask);
    } else {
      var un, re := MaskMinus(prev, mask), MaskMinus(mask, prev);
      SubMaskOneGroup(un, prev);
      SubMaskOneGroup(re, mask);
      forall s
        ensures Visits(un, s) <==> Subscribed(un, s)
        ensures Visits(re, s) <==> Subscribed(re, s)
      {
        VisitsOneGroup(un, s);
        VisitsOneGroup(re, s);
      }
    }
  }

  /**
   * A mask holding FixedTick and IndependentLocalTick registers the ID
   * with FixedTick only.
   */
  lemma MixedRegistrationExample(id: int)
    ensures var mask := AddFlag(AddFlag(0, FixedTick), IndependentLocalTick);
      var r := RegisterInstance(EmptyRegistry(), NewInstanceData(), id, mask).0;
      id in Members(r, FixedTick) && id !in Members(r, IndependentLocalTick)
  {
    var mask := AddFlag(AddFlag(0, FixedTick), IndependentLocalTick);
    ExampleMaskVisitsFixedOnly();
    var r := ForEachService(EmptyRegistry(), mask, id, true);
    assert RegisterInstance(EmptyRegistry(), NewInstanceData(), id, mask).0 == r;
  }

  /** The mixed mask of the example is valid and visits its fixed service only. */
  lemma ExampleMaskVisitsFixedOnly()
    ensures var mask := AddFlag(AddFlag(0, FixedTick), IndependentLocalTick);
      ValidMask(mask) && Visits(mask, FixedTick) && !Visits(mask, IndependentLocalTick)
  {
    var m0 := AddFlag(0, FixedTick);
    var mask := AddFlag(m0, IndependentLocalTick);
    assert HasFlag(mask, FixedTick);
    HasAnyIff(mask);
    assert HasAnyFixed(mask);
  }

  // ---------------------------------------------------------------------
  // The data store and UnregisterInstance
  // ---------------------------------------------------------------------

  /**
   * TJoltModelDataStore: the per-ID maps. The frame buffers and receive
   * records are carried as opaque values of the type parameters.
   */
  datatype DataStore<F, C, S, D> = DataStore(
    instances: map<int, InstanceData>,
    frames: map<int, F>,
    clientRecv: map<int, C>,
    serverRecv: map<int, S>,
    serverRecvIndependent: map<int, D>)

  function EmptyDataStore<F, C, S, D>(): (d: DataStore<F, C, S, D>)
    ensures d.instances == map[] && d.frames == map[] && d.clientRecv == map[]
    ensures d.serverRecv == map[] && d.serverRecvIndependent == map[]
  {
    DataStore(map[], map[], map[], map[], map[])
  }

  predicate ValidStore<F, C, S, D>(d: DataStore<F, C, S, D>)
  {
    forall id :: id in d.instances ==> ValidMask(d.instances[id].serviceMask)
  }

  /**
   * UnregisterInstance: the ID leaves the services of its recorded mask
   * (if it has an instance record), then every map of the store.
   */
  function UnregisterInstance<F, C, S, D>(reg: Registry, d: DataStore<F, C, S, D>, id: int): (r: (Registry, DataStore<F, C, S, D>))
    requires ValidRegistry(reg) && ValidStore(d)
    ensures ValidRegistry(r.0) && ValidStore(r.1)
    ensures id !in r.1.instances && id !in r.1.frames && id !in r.1.clientRecv
    ensures id !in r.1.serverRecv && id !in r.1.serverRecvIndependent
    ensures r.1.instances == d.instances - {id} && r.1.frames == d.frames - {id}
    ensures r.1.clientRecv == d.clientRecv - {id} && r.1.serverRecv == d.serverRecv - {id}
    ensures r.1.serverRecvIndependent == d.serverRecvIndependent - {id}
    ensures id !in d.instances ==> r.0 == reg
    ensures forall s, x :: x != id ==> (x in Members(r.0, s) <==> x in Members(reg, s))
  {
    var reg' := if id in d.instances then ForEachService(reg, d.instances[id].serviceMask, id, false) else reg;
    (reg', DataStore(d.instances - {id}, d.frames - {id}, d.clientRecv - {id}, d.serverRecv - {id},
                     d.serverRecvIndependent - {id}))
  }

  /** An instance registered consistently with a one-group mask leaves every service. */
  lemma UnregisterLeavesNoService<F, C, S, D>(reg: Registry, d: DataStore<F, C, S, D>, id: int)
    requires ValidRegistry(reg) && ValidStore(d)
    requires id in d.instances && OneGroup(d.instances[id].serviceMask)
    requires Consistent(reg, id, d.instances[id].serviceMask)
    ensures forall s :: id !in Members(UnregisterInstance(reg, d, id).0, s)
  {
    forall s
      ensures Visits(d.instances[id].serviceMask, s) <==> Subscribed(d.instances[id].serviceMask, s)
    {
      VisitsOneGroup(d.instances[id].serviceMask, s);
    }
  }

  // ---------------------------------------------------------------------
  // GetDataStore
  // ---------------------------------------------------------------------

  /**
   * GetDataStore: grows the array to hold the model's ID, creates the
   * store on first use and returns it.
   */
  function GetDataStore<F, C, S, D>(stores: seq<Option<DataStore<F, C, S, D>>>, modelId: nat): (r: (seq<Option<DataStore<F, C, S, D>>>, DataStore<F, C, S, D>))
    ensures |r.0| == Max(|stores|, modelId + 1)
    ensures r.0[modelId] == Some(r.1)
    ensures (modelId < |stores| && stores[modelId].Some? ==> r == (stores, stores[modelId].value))
    ensures modelId < |stores| && stores[modelId].None? ==> r.1 == EmptyDataStore()
    ensures modelId >= |stores| ==> r.1 == EmptyDataStore()
    ensures forall i :: 0 <= i < |r.0| && i != modelId ==> r.0[i] == if i < |stores| then stores[i] else None
  {
    var grown := if modelId < |stores| then stores else stores + seq(modelId + 1 - |stores|, _ => None);
    match grown[modelId]
    case Some(store) => (grown, store)
    case None => (grown[modelId := Some(EmptyDataStore())], EmptyDataStore())
  }

  /** A second request for the same model returns the same store and changes nothing. */
  lemma GetDataStoreIdempotent<F, C, S, D>(stores: seq<Option<DataStore<F, C, S, D>>>, modelId: nat)
    ensures var first := GetDataStore(stores, modelId);
      GetDataStore(first.0, modelId) == first
  {
  }

  /** Requesting one model's store leaves every other model's store where it was. */
  lemma GetDataStoreKeepsOthers<F, C, S, D>(stores: seq<Option<DataStore<F, C, S, D>>>, modelId: nat, other: nat)
    requires other != modelId && other < |stores| && stores[other].Some?
    ensures var first := GetDataStore(stores, modelId);
      other < |first.0| && first.0[other] == stores[other]
  {
  }
}
