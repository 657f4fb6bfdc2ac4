/**
 * The Mover component's own bookkeeping around the simulation tick: the
 * layered-move logic registry with its pending lists, the resimulation
 * flag and the newest time step, the persistent sync-state pass, the
 * movement-mode table, and the up-direction override.
 */
module MoverComponent {
  import opened Common
  import opened Conversions
  import opened MoverTypes
  import MDC = MoverDataCollection
  import FSM = MovementModeStateMachine

  // ---------------------------------------------------------------------
  // Layered-move logic registration
  // ---------------------------------------------------------------------

  /** A layered-move logic class, by name; a registered logic object is represented by its class. */
  type MoveClass = string

  datatype Registry = Registry(
    registered: seq<MoveClass>,
    pendingRegistration: seq<MoveClass>,
    pendingUnregistration: seq<MoveClass>)

  /** The class will be registered after the next pre-simulation tick. */
  predicate WillBeRegistered(r: Registry, c: MoveClass)
  {
    c !in r.pendingUnregistration && (c in r.registered || c in r.pendingRegistration)
  }

  /**
   * K2_RegisterMove: a pending unregistration of the class is withdrawn,
   * and the class is queued for registration unless it is already queued
   * or already registered.
   */
  function RegisterMove(r: Registry, c: MoveClass): (r': Registry)
    ensures WillBeRegistered(r', c)
    ensures r'.registered == r.registered
    ensures c in r.pendingRegistration || c in r.registered ==> r'.pendingRegistration == r.pendingRegistration
    ensures forall x :: x in r.pendingRegistration ==> x in r'.pendingRegistration
    ensures forall x :: x in r'.pendingUnregistration <==> x in r.pendingUnregistration && x != c
  {
    var pu := RemoveAll(r.pendingUnregistration, c);
    var pr := if c !in r.pendingRegistration && c !in r.registered then AddUnique(r.pendingRegistration, c) else r.pendingRegistration;
    Registry(r.registered, pr, pu)
  }

  /** Registering another class leaves a class's fate alone. */
  lemma RegisterKeepsScheduled(r: Registry, c: MoveClass, other: MoveClass)
    requires WillBeRegistered(r, c)
    ensures WillBeRegistered(RegisterMove(r, other), c)
  {
  }

  /** K2_RegisterMoves: each class in turn. */
  function RegisterMoves(r: Registry, cs: seq<MoveClass>): (r': Registry)
    ensures r'.registered == r.registered
    decreases |cs|
  {
    if |cs| == 0 then r else RegisterMoves(RegisterMove(r, cs[0]), cs[1..])
  }

  lemma {:induction false} RegisterMovesSchedulesAll(r: Registry, cs: seq<MoveClass>)
    ensures forall i :: 0 <= i < |cs| ==> WillBeRegistered(RegisterMoves(r, cs), cs[i])
    ensures forall c :: WillBeRegistered(r, c) ==> WillBeRegistered(RegisterMoves(r, cs), c)
    decreases |cs|
  {
    if |cs| > 0 {
      var r1 := RegisterMove(r, cs[0]);
      RegisterMovesSchedulesAll(r1, cs[1..]);
      forall c | WillBeRegistered(r, c)
        ensures WillBeRegistered(r1, c)
      {
        RegisterKeepsScheduled(r, c, cs[0]);
      }
      assert forall i :: 1 <= i < |cs| ==> cs[i] == cs[1..][i - 1];
    }
  }

  /**
   * K2_UnregisterMove with its inverted test: the pending registration is withdrawn,
   * and an unregistration is queued only when NO registered move has the
   * class (the test's result is read as "already unregistered").
   */
  function UnregisterMoveAsWritten(r: Registry, c: MoveClass): (r': Registry)
    ensures c !in r'.pendingRegistration && r'.registered == r.registered
  {
    var pr := RemoveAll(r.pendingRegistration, c);
    var pu := if c !in r.pendingUnregistration && c !in r.registered then AddUnique(r.pendingUnregistration, c) else r.pendingUnregistration;
    Registry(r.registered, pr, pu)
  }

  /** K2_UnregisterMove with the test the other way round: an unregistration is queued for a class that is registered. */
  function UnregisterMove(r: Registry, c: MoveClass): (r': Registry)
    ensures c !in r'.pendingRegistration && r'.registered == r.registered
    ensures c in r.registered ==> c in r'.pendingUnregistration
    ensures forall x :: x in r'.pendingUnregistration ==> x in r.pendingUnregistration || x == c
  {
    var pr := RemoveAll(r.pendingRegistration, c);
    var pu := if c !in r.pendingUnregistration && c in r.registered then AddUnique(r.pendingUnregistration, c) else r.pendingUnregistration;
    Registry(r.registered, pr, pu)
  }

  /**
   * PreSimulationTick's registry part: every pending class is instantiated
   * and appended, then every move of a pending-unregistration class is
   * removed, and both lists are emptied.
   */
  function PreSimulationTick(r: Registry): (r': Registry)
    ensures r'.pendingRegistration == [] && r'.pendingUnregistration == []
    ensures forall x :: x in r'.registered <==> (x in r.registered || x in r.pendingRegistration) && x !in r.pendingUnregistration
  {
    var all := r.registered + r.pendingRegistration;
    var kept := Filter(all, (x: MoveClass) => x !in r.pendingUnregistration);
    assert forall x :: x in all <==> x in r.registered || x in r.pendingRegistration;
    assert forall x :: x in kept ==> x in all && x !in r.pendingUnregistration by {
      forall x | x in kept ensures x in all && x !in r.pendingUnregistration {
        var i :| 0 <= i < |kept| && kept[i] == x;
      }
    }
    assert forall x :: x in all && x !in r.pendingUnregistration ==> x in kept by {
      forall x | x in all && x !in r.pendingUnregistration ensures x in kept {
        var i :| 0 <= i < |all| && all[i] == x;
      }
    }
    Registry(kept, [], [])
  }

  /** A registered class is exactly one that will be after the tick, and the tick settles every pending request. */
  lemma TickApplies(r: Registry, c: MoveClass)
    ensures c in PreSimulationTick(r).registered <==> WillBeRegistered(r, c)
  {
  }

  /** Registering a class and ticking leaves it registered, whatever was pending. */
  lemma RegisterThenTickRegisters(r: Registry, c: MoveClass)
    ensures c in PreSimulationTick(RegisterMove(r, c)).registered
  {
    TickApplies(RegisterMove(r, c), c);
  }

  /** Unregistering a class and ticking leaves it unregistered, whatever was pending. */
  lemma UnregisterThenTickUnregisters(r: Registry, c: MoveClass)
    ensures c !in PreSimulationTick(UnregisterMove(r, c)).registered
  {
    var r1 := UnregisterMove(r, c);
    if c in r.registered {
      assert c in r1.pendingUnregistration;
    } else {
      assert c !in r1.registered && c !in r1.pendingRegistration;
    }
  }

  /** With the inverted test, a registered class that is unregistered is still registered after the tick. */
  lemma RegisteredMoveSurvivesUnregister(r: Registry, c: MoveClass)
    requires c in r.registered && c !in r.pendingUnregistration
    ensures c in PreSimulationTick(UnregisterMoveAsWritten(r, c)).registered
  {
    var r1 := UnregisterMoveAsWritten(r, c);
    assert r1.pendingUnregistration == r.pendingUnregistration;
    TickApplies(r1, c);
  }

  // ---------------------------------------------------------------------
  // The resimulation flag and the newest time step
  // ---------------------------------------------------------------------

  /**
   * SimulationTick's time-step bookkeeping: the step is a resimulation when
   * its base time is not after the newest step's; the newest step is
   * replaced only by a step with a later frame or a later time. Returns the
   * step as the mover sees it and the new newest step.
   */
  function TickSteps(newest: TimeStep, input: TimeStep): (r: (TimeStep, TimeStep))
    ensures r.0.isResimulating <==> input.baseSimTimeMs <= newest.baseSimTimeMs
    ensures r.0.(isResimulating := input.isResimulating) == input
    ensures r.1 == newest || r.1 == r.0
    ensures r.1 == r.0 <==> input.serverFrame > newest.serverFrame || input.baseSimTimeMs > newest.baseSimTimeMs || r.0 == newest
  {
    var step := input.(isResimulating := input.baseSimTimeMs <= newest.baseSimTimeMs);
    var newest' := if step.serverFrame > newest.serverFrame || step.baseSimTimeMs > newest.baseSimTimeMs then step else newest;
    (step, newest')
  }

  /** A step ahead of the newest is not a resimulation and becomes the newest. */
  lemma FreshStepBecomesNewest(newest: TimeStep, input: TimeStep)
    requires input.baseSimTimeMs > newest.baseSimTimeMs
    ensures !TickSteps(newest, input).0.isResimulating && TickSteps(newest, input).1 == TickSteps(newest, input).0
  {
  }

  /** A correction replaying steps not past the newest leaves the newest step where it was. */
  lemma ReplayNeverRewindsNewest(newest: TimeStep, input: TimeStep)
    requires input.serverFrame <= newest.serverFrame && input.baseSimTimeMs <= newest.baseSimTimeMs
    ensures TickSteps(newest, input).0.isResimulating && TickSteps(newest, input).1 == newest
  {
  }

  /** Ticking the same step again is always a resimulation. */
  lemma RepeatedStepIsResimulation(newest: TimeStep, input: TimeStep)
    ensures TickSteps(TickSteps(newest, input).1, input).0.isResimulating
  {
  }

  // ---------------------------------------------------------------------
  // Persistent sync-state data
  // ---------------------------------------------------------------------

  /** FJoltMoverDataPersistence: a sync-state type kept from frame to frame, optionally copied from the prior frame. */
  datatype Persistence = Persistence(requiredType: MDC.StructType, copyFromPriorFrame: bool)

  predicate IsPersistentName(entries: seq<Persistence>, name: string)
  {
    exists e :: e in entries && e.requiredType.name == name
  }

  /**
   * One entry of the first pass: the prior frame's block is copied in when
   * asked for and found; otherwise a block answering for the type is found
   * or added.
   */
  function AddOne<V>(e: Persistence, prior: seq<MDC.Data<V>>, out: seq<MDC.Data<V>>, initial: V): (r: seq<MDC.Data<V>>)
    ensures MDC.Grows(out, r) && |r| <= |out| + 1
    ensures forall k :: |out| <= k < |r| ==> r[k] in prior || r[k].struct == e.requiredType
  {
    var found := if e.copyFromPriorFrame then MDC.FindDataByType(prior, e.requiredType.name) else None;
    if found.Some? then
      var d := prior[found.value];
      assert MDC.AddDataByCopy(out, d) == out + [d] || |MDC.AddDataByCopy(out, d)| == |out|;
      MDC.AddDataByCopy(out, d)
    else MDC.FindOrAddDataByType(out, e.requiredType, initial).1
  }

  /** The first pass, entry by entry. */
  function AddPersistent<V>(entries: seq<Persistence>, prior: seq<MDC.Data<V>>, out: seq<MDC.Data<V>>, initial: V)
    : (r: seq<MDC.Data<V>>)
    ensures MDC.Grows(out, r)
  {
    if |entries| == 0 then out
    else
      var out' := AddOne(entries[0], prior, out, initial);
      var r := AddPersistent(entries[1..], prior, out', initial);
      MDC.GrowsTrans(out, out', r);
      r
  }

  /** Every block answering for a persistent type has exactly that type. */
  predicate Exact<V>(entries: seq<Persistence>, c: seq<MDC.Data<V>>)
  {
    forall i, k :: 0 <= i < |entries| && 0 <= k < |c| && MDC.IsA(c[k].struct, entries[i].requiredType.name)
      ==> c[k].struct.name == entries[i].requiredType.name
  }

  /** No persistent type derives from another persistent type. */
  predicate RequiredExact(entries: seq<Persistence>)
  {
    forall i, j :: 0 <= i < |entries| && 0 <= j < |entries| && MDC.IsA(entries[j].requiredType, entries[i].requiredType.name)
      ==> entries[j].requiredType.name == entries[i].requiredType.name
  }

  lemma AddOneProvides<V>(e: Persistence, prior: seq<MDC.Data<V>>, out: seq<MDC.Data<V>>, initial: V, all: seq<Persistence>)
    requires e in all && Exact(all, prior)
    ensures MDC.Present(AddOne(e, prior, out, initial), e.requiredType.name)
  {
    var found := if e.copyFromPriorFrame then MDC.FindDataByType(prior, e.requiredType.name) else None;
    var r := AddOne(e, prior, out, initial);
    if found.Some? {
      var i :| 0 <= i < |all| && all[i] == e;
      assert prior[found.value].struct.name == e.requiredType.name;
      MDC.AddDataByCopyFindsCopy(out, prior[found.value]);
    } else {
      var k := MDC.FindOrAddDataByType(out, e.requiredType, initial).0;
      assert MDC.IsA(r[k].struct, e.requiredType.name);
    }
  }

  /** After the first pass every persistent type can be found, provided the prior frame's blocks are of the exact types. */
  lemma {:induction false} AddPersistentProvidesAll<V>(entries: seq<Persistence>, prior: seq<MDC.Data<V>>, out: seq<MDC.Data<V>>, initial: V, all: seq<Persistence>)
    requires Exact(all, prior) && forall e :: e in entries ==> e in all
    ensures forall i :: 0 <= i < |entries| ==> MDC.Present(AddPersistent(entries, prior, out, initial), entries[i].requiredType.name)
  {
    if |entries| > 0 {
      var e := entries[0];
      var out' := AddOne(e, prior, out, initial);
      assert e in entries;
      AddOneProvides(e, prior, out, initial, all);
      assert forall x :: x in entries[1..] ==> x in entries;
      AddPersistentProvidesAll(entries[1..], prior, out', initial, all);
      MDC.GrowsKeepsPresent(out', AddPersistent(entries[1..], prior, out', initial), e.requiredType.name);
      assert forall i :: 1 <= i < |entries| ==> entries[i] == entries[1..][i - 1];
    }
  }

  lemma AddOneExact<V>(e: Persistence, prior: seq<MDC.Data<V>>, out: seq<MDC.Data<V>>, initial: V, all: seq<Persistence>)
    requires e in all && Exact(all, prior) && RequiredExact(all) && Exact(all, out)
    ensures Exact(all, AddOne(e, prior, out, initial))
  {
    var r := AddOne(e, prior, out, initial);
    forall i, k | 0 <= i < |all| && 0 <= k < |r| && MDC.IsA(r[k].struct, all[i].requiredType.name)
      ensures r[k].struct.name == all[i].requiredType.name
    {
      if k < |out| {
        assert r[k].struct == out[k].struct;
      } else if r[k] in prior {
        var m :| 0 <= m < |prior| && prior[m] == r[k];
      } else {
        var j :| 0 <= j < |all| && all[j] == e;
      }
    }
  }

  lemma {:induction false} AddPersistentExact<V>(entries: seq<Persistence>, prior: seq<MDC.Data<V>>, out: seq<MDC.Data<V>>, initial: V, all: seq<Persistence>)
    requires forall e :: e in entries ==> e in all
    requires Exact(all, prior) && RequiredExact(all) && Exact(all, out)
    ensures Exact(all, AddPersistent(entries, prior, out, initial))
  {
    if |entries| > 0 {
      assert entries[0] in entries;
      AddOneExact(entries[0], prior, out, initial, all);
      assert forall x :: x in entries[1..] ==> x in entries;
      AddPersistentExact(entries[1..], prior, AddOne(entries[0], prior, out, initial), initial, all);
    }
  }

  /** Removes the element at i. */
  function RemoveAt<T>(s: seq<T>, i: nat): (r: seq<T>)
    requires i < |s|
    ensures |r| == |s| - 1 && r == s[..i] + s[i + 1..]
  {
    s[..i] + s[i + 1..]
  }

  /**
   * The second pass removing by type: from the last index down, a block whose
   * type is not persistent is removed by type, which removes the FIRST
   * block answering for that type; that can be an earlier block of a
   * derived type.
   */
  function PruneAsWritten<V>(entries: seq<Persistence>, c: seq<MDC.Data<V>>, i: int): (r: seq<MDC.Data<V>>)
    requires -1 <= i < |c|
    ensures |r| <= |c|
    decreases i + 1
  {
    if i < 0 then c
    else if IsPersistentName(entries, c[i].struct.name) then PruneAsWritten(entries, c, i - 1)
    else
      var c' := MDC.RemoveDataByType(c, c[i].struct.name).1;
      PruneAsWritten(entries, c', i - 1)
  }

  /** The second pass as evidently intended: the block at index i itself is removed. */
  function Prune<V>(entries: seq<Persistence>, c: seq<MDC.Data<V>>, i: int): (r: seq<MDC.Data<V>>)
    requires -1 <= i < |c|
    ensures |r| <= |c|
    decreases i + 1
  {
    if i < 0 then c
    else if IsPersistentName(entries, c[i].struct.name) then Prune(entries, c, i - 1)
    else Prune(entries, RemoveAt(c, i), i - 1)
  }

  predicate Persists<V>(entries: seq<Persistence>, d: MDC.Data<V>)
  {
    IsPersistentName(entries, d.struct.name)
  }

  /** Removing an element the filter rejects does not change the filtered result. */
  lemma {:induction false} FilterDropsRemoved<T>(s: seq<T>, j: nat, keep: T -> bool)
    requires j < |s| && !keep(s[j])
    ensures Filter(RemoveAt(s, j), keep) == Filter(s, keep)
  {
    if j == 0 {
      assert RemoveAt(s, 0) == s[1..];
    } else {
      FilterDropsRemoved(s[1..], j - 1, keep);
      assert RemoveAt(s, j) == [s[0]] + RemoveAt(s[1..], j - 1);
      assert RemoveAt(s, j)[1..] == RemoveAt(s[1..], j - 1);
    }
  }

  /** The intended pass keeps exactly the blocks of persistent types, in order. */
  lemma {:induction false} PruneKeepsPersistent<V>(entries: seq<Persistence>, c: seq<MDC.Data<V>>, i: int)
    requires -1 <= i < |c|
    requires forall k :: i < k < |c| ==> Persists(entries, c[k])
    ensures Prune(entries, c, i) == Filter(c, (d: MDC.Data<V>) => Persists(entries, d))
    decreases i + 1
  {
    var keep := (d: MDC.Data<V>) => Persists(entries, d);
    if i < 0 {
      FilterKeepsAll(c, keep);
    } else if IsPersistentName(entries, c[i].struct.name) {
      PruneKeepsPersistent(entries, c, i - 1);
    } else {
      var c' := RemoveAt(c, i);
      assert forall k :: i - 1 < k < |c'| ==> c'[k] == c[k + 1];
      PruneKeepsPersistent(entries, c', i - 1);
      FilterDropsRemoved(c, i, keep);
    }
  }

  /** No block's type derives from another block's type. */
  predicate NoSubtypes<V>(c: seq<MDC.Data<V>>)
  {
    forall i, j :: 0 <= i < |c| && 0 <= j < |c| ==> c[j].struct.name !in c[i].struct.supers
  }

  lemma NoSubtypesAfterRemoval<V>(c: seq<MDC.Data<V>>, j: nat)
    requires j < |c| && NoSubtypes(c)
    ensures NoSubtypes(RemoveAt(c, j))
  {
    var c' := RemoveAt(c, j);
    assert forall k :: 0 <= k < |c'| ==> c'[k] == c[if k < j then k else k + 1];
  }

  /** Without derived types in the collection the written pass removes the block it looks at, or one just like it. */
  lemma {:induction false} PruneAsWrittenWhenFlat<V>(entries: seq<Persistence>, c: seq<MDC.Data<V>>, i: int)
    requires -1 <= i < |c| && NoSubtypes(c)
    requires forall k :: i < k < |c| ==> Persists(entries, c[k])
    ensures PruneAsWritten(entries, c, i) == Filter(c, (d: MDC.Data<V>) => Persists(entries, d))
    decreases i + 1
  {
    var keep := (d: MDC.Data<V>) => Persists(entries, d);
    if i < 0 {
      FilterKeepsAll(c, keep);
    } else if IsPersistentName(entries, c[i].struct.name) {
      PruneAsWrittenWhenFlat(entries, c, i - 1);
    } else {
      var j := MDC.FindDataByType(c, c[i].struct.name).value;
      assert j <= i;
      assert c[j].struct.name == c[i].struct.name;
      var c' := RemoveAt(c, j);
      assert MDC.RemoveDataByType(c, c[i].struct.name).1 == c';
      assert forall k :: i - 1 < k < |c'| ==> c'[k] == c[k + 1];
      NoSubtypesAfterRemoval(c, j);
      PruneAsWrittenWhenFlat(entries, c', i - 1);
      FilterDropsRemoved(c, j, keep);
    }
  }

  /** The whole persistence pass, with the written or the intended removal. */
  function PersistAsWritten<V>(entries: seq<Persistence>, prior: seq<MDC.Data<V>>, out: seq<MDC.Data<V>>, initial: V): seq<MDC.Data<V>>
  {
    var added := AddPersistent(entries, prior, out, initial);
    PruneAsWritten(entries, added, |added| - 1)
  }

  function Persist<V>(entries: seq<Persistence>, prior: seq<MDC.Data<V>>, out: seq<MDC.Data<V>>, initial: V): (r: seq<MDC.Data<V>>)
    ensures forall k :: 0 <= k < |r| ==> Persists(entries, r[k])
  {
    var added := AddPersistent(entries, prior, out, initial);
    PruneKeepsPersistent(entries, added, |added| - 1);
    Prune(entries, added, |added| - 1)
  }

  /** Without derived types among the blocks after the first pass, the written pass and the intended one agree. */
  lemma PersistAsWrittenWhenFlat<V>(entries: seq<Persistence>, prior: seq<MDC.Data<V>>, out: seq<MDC.Data<V>>, initial: V)
    requires NoSubtypes(AddPersistent(entries, prior, out, initial))
    ensures PersistAsWritten(entries, prior, out, initial) == Persist(entries, prior, out, initial)
  {
    var added := AddPersistent(entries, prior, out, initial);
    PruneAsWrittenWhenFlat(entries, added, |added| - 1);
    PruneKeepsPersistent(entries, added, |added| - 1);
  }

  /**
   * After the intended pass only persistent types remain, and each
   * persistent type is there under its own name, provided neither frame
   * holds a block derived from a persistent type without being one and no
   * persistent type derives from another.
   */
  lemma PersistProvidesExactly<V>(entries: seq<Persistence>, prior: seq<MDC.Data<V>>, out: seq<MDC.Data<V>>, initial: V)
    requires Exact(entries, prior) && Exact(entries, out) && RequiredExact(entries)
    ensures var r := Persist(entries, prior, out, initial);
      forall i :: 0 <= i < |entries| ==> exists k :: 0 <= k < |r| && r[k].struct.name == entries[i].requiredType.name
  {
    var added := AddPersistent(entries, prior, out, initial);
    AddPersistentProvidesAll(entries, prior, out, initial, entries);
    AddPersistentExact(entries, prior, out, initial, entries);
    var keep := (d: MDC.Data<V>) => Persists(entries, d);
    PruneKeepsPersistent(entries, added, |added| - 1);
    var r := Persist(entries, prior, out, initial);
    assert r == Filter(added, keep);
    forall i | 0 <= i < |entries|
      ensures exists k :: 0 <= k < |r| && r[k].struct.name == entries[i].requiredType.name
    {
      var k :| 0 <= k < |added| && MDC.IsA(added[k].struct, entries[i].requiredType.name);
      assert added[k].struct.name == entries[i].requiredType.name;
      assert entries[i] in entries;
      assert keep(added[k]);
      assert added[k] in r;
    }
  }

  /**
   * A persistent type derived from a non-persistent one present in the
   * frame is removed when pruning removes by type: removing the base type's block removes
   * the derived block that comes first.
   */
  lemma DerivedPersistentTypeIsPruned()
    ensures var base := MDC.StructType("Base", [MDC.DATA_STRUCT_BASE]);
      var derived := MDC.StructType("Derived", ["Base", MDC.DATA_STRUCT_BASE]);
      var entries := [Persistence(derived, false)];
      var out := [MDC.Data(derived, 1), MDC.Data(base, 2)];
      && PersistAsWritten(entries, [], out, 0) == []
      && Persist(entries, [], out, 0) == [MDC.Data(derived, 1)]
  {
    var base := MDC.StructType("Base", [MDC.DATA_STRUCT_BASE]);
    var derived := MDC.StructType("Derived", ["Base", MDC.DATA_STRUCT_BASE]);
    var entries := [Persistence(derived, false)];
    var out := [MDC.Data(derived, 1), MDC.Data(base, 2)];
    assert MDC.IsA(derived, "Derived");
    assert AddPersistent(entries, [], out, 0) == out by {
      assert MDC.FindOrAddDataByType(out, derived, 0).1 == out;
      assert entries[1..] == [];
    }
    assert IsPersistentName(entries, "Derived") by { assert entries[0] in entries; }
    assert !IsPersistentName(entries, "Base");
    assert MDC.FindDataByType(out, "Base") == Some(0);
    assert MDC.RemoveDataByType(out, "Base").1 == [MDC.Data(base, 2)];
    assert MDC.RemoveDataByType([MDC.Data(base, 2)], "Base").1 == [];
    assert RemoveAt(out, 1) == [MDC.Data(derived, 1)];
  }

  // ---------------------------------------------------------------------
  // Movement modes
  // ---------------------------------------------------------------------

  /** A movement-mode object: its class and whether that class is abstract. */
  datatype ModeObject = ModeObject(modeClass: string, isAbstract: bool)

  datatype ModeTable = ModeTable(modes: map<string, ModeObject>, fsm: FSM.Fsm)

  /** The state machine knows every mode of the table. */
  predicate Registered(t: ModeTable)
  {
    forall n :: n in t.modes ==> n in t.fsm.modes
  }

  /**
   * RemoveMovementMode: whether a mode of that name was in the table; if
   * so it is gone from the table and unregistered from the state machine.
   */
  function RemoveMovementMode(t: ModeTable, name: string): (r: (bool, ModeTable))
    requires Registered(t)
    ensures r.0 <==> name in t.modes
    ensures name !in r.1.modes && Registered(r.1)
    ensures forall n :: n != name ==> (n in r.1.modes <==> n in t.modes) && (n in t.modes ==> r.1.modes[n] == t.modes[n])
    ensures r.1.fsm.current == t.fsm.current
  {
    if name in t.modes then (true, ModeTable(t.modes - {name}, FSM.UnregisterMovementMode(t.fsm, name)))
    else (false, t)
  }

  /**
   * AddMovementModeFromObject: a null or abstract mode is refused;
   * otherwise a mode of the same name is removed first, then the mode is
   * added and registered with the state machine.
   */
  function AddMovementModeFromObject(t: ModeTable, name: string, mode: Option<ModeObject>): (r: (bool, ModeTable))
    requires Registered(t)
    ensures r.0 <==> mode.Some? && !mode.value.isAbstract
    ensures !r.0 ==> r.1 == t
    ensures r.0 ==> name in r.1.modes && r.1.modes[name] == mode.value && name in r.1.fsm.modes
    ensures Registered(r.1)
    ensures forall n :: n != name ==> (n in r.1.modes <==> n in t.modes) && (n in t.modes ==> r.1.modes[n] == t.modes[n])
  {
    if mode.None? || mode.value.isAbstract then (false, t)
    else
      var t' := if name in t.modes then RemoveMovementMode(t, name).1 else t;
      (true, ModeTable(t'.modes[name := mode.value], FSM.RegisterMovementMode(t'.fsm, name, false)))
  }

  /** Adding then removing a mode leaves the other modes as they were and reports the removal. */
  lemma AddThenRemove(t: ModeTable, name: string, mode: ModeObject)
    requires Registered(t) && !mode.isAbstract
    ensures var added := AddMovementModeFromObject(t, name, Some(mode)).1;
      var removed := RemoveMovementMode(added, name);
      && removed.0
      && removed.1.modes == t.modes - {name}
  {
  }

  // ---------------------------------------------------------------------
  // The up direction
  // ---------------------------------------------------------------------

  datatype UpDirectionState = UpDirectionState(hasUpOverride: bool, upOverride: Vec3, hasGravityOverride: bool)

  /** The constructed component: no overrides, and the up vector as the stored override. */
  const DEFAULT_UP_STATE: UpDirectionState := UpDirectionState(false, Vec3(0.0, 0.0, 1.0), false)

  /** FVector::IsNearlyZero with its default tolerance: every component within UE_KINDA_SMALL_NUMBER. */
  predicate IsNearlyZero(v: Vec3)
  {
    RealAbs(v.x) <= KINDA_SMALL_NUMBER && RealAbs(v.y) <= KINDA_SMALL_NUMBER && RealAbs(v.z) <= KINDA_SMALL_NUMBER
  }

  /**
   * SetUpDirectionOverride clearing the wrong flag: the flag is set first; for a nearly
   * zero direction it is the GRAVITY override that is cleared, so the up
   * override stays on with its previous direction. `safeNormal` is
   * FVector::GetSafeNormal.
   */
  function SetUpDirectionOverrideAsWritten(s: UpDirectionState, enable: bool, dir: Vec3, safeNormal: Vec3 -> Vec3): (r: UpDirectionState)
    ensures r.hasUpOverride == enable
  {
    var s' := s.(hasUpOverride := enable);
    if !enable then s'
    else if IsNearlyZero(dir) then s'.(hasGravityOverride := false)
    else s'.(upOverride := safeNormal(dir))
  }

  /** SetUpDirectionOverride as its warning describes: a nearly zero direction switches the up override off and nothing else. */
  function SetUpDirectionOverride(s: UpDirectionState, enable: bool, dir: Vec3, safeNormal: Vec3 -> Vec3): (r: UpDirectionState)
    ensures r.hasGravityOverride == s.hasGravityOverride
    ensures r.hasUpOverride <==> enable && !IsNearlyZero(dir)
    ensures r.hasUpOverride ==> r.upOverride == safeNormal(dir)
  {
    if enable && !IsNearlyZero(dir) then s.(hasUpOverride := true, upOverride := safeNormal(dir))
    else s.(hasUpOverride := false)
  }

  /** GetUpDirection: the override when enabled, else the direction deduced from gravity (`fromGravity`). */
  function GetUpDirection(s: UpDirectionState, fromGravity: Vec3): Vec3
  {
    if s.hasUpOverride then s.upOverride else fromGravity
  }

  /** An override takes effect only for a usable direction; otherwise gravity decides. */
  lemma UpDirectionFollowsOverride(s: UpDirectionState, enable: bool, dir: Vec3, safeNormal: Vec3 -> Vec3, fromGravity: Vec3)
    ensures GetUpDirection(SetUpDirectionOverride(s, enable, dir, safeNormal), fromGravity)
         == if enable && !IsNearlyZero(dir) then safeNormal(dir) else fromGravity
  {
  }

  /**
   * Clearing the wrong flag, a zero override after an earlier one keeps the earlier
   * direction in force instead of gravity's, and drops the gravity
   * override.
   */
  lemma ZeroOverrideKeepsStaleDirection(safeNormal: Vec3 -> Vec3)
    requires safeNormal(Vec3(1.0, 0.0, 0.0)) == Vec3(1.0, 0.0, 0.0)
    ensures var s := SetUpDirectionOverrideAsWritten(DEFAULT_UP_STATE.(hasGravityOverride := true), true, Vec3(1.0, 0.0, 0.0), safeNormal);
      var s' := SetUpDirectionOverrideAsWritten(s, true, ZERO_VECTOR, safeNormal);
      && GetUpDirection(s', Vec3(0.0, 0.0, 1.0)) == Vec3(1.0, 0.0, 0.0)
      && !s'.hasGravityOverride
      && GetUpDirection(SetUpDirectionOverride(s, true, ZERO_VECTOR, safeNormal), Vec3(0.0, 0.0, 1.0)) == Vec3(0.0, 0.0, 1.0)
  {
    assert !IsNearlyZero(Vec3(1.0, 0.0, 0.0));
    assert IsNearlyZero(ZERO_VECTOR);
  }
}
