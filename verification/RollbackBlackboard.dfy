/**
 * The mover's rollback blackboard: named entries, each a circular buffer
 * of values with timestamps, an external index that outside readers use
 * and an internal index that the simulation in progress reads and writes.
 * A simulation frame writes one slot ahead of the external index and
 * publishes it when the frame ends; a rollback moves both indices back to
 * the newest value written before the frame being resimulated.
 *
 * Buffer indices are unbounded naturals here; a slot is an index modulo
 * the buffer's capacity.
 */
module RollbackBlackboard {
  import opened Common
  import LagCompHistory

  // ---------------------------------------------------------------------
  // Policies and timestamps
  // ---------------------------------------------------------------------

  datatype SizingPolicy = FixedDeclaredSize | FixedBackendBufferSize | SingleEntry
  datatype PersistencePolicy = Forever | NextFrameOnly | LimitedTime
  datatype RollbackPolicy = InvalidatedOnRollback | WritableDuringResimulation | LockedDuringResimulation

  /** An entry's settings, with their defaults: fixed size 0, forever, invalidated on rollback. */
  datatype EntrySettings = EntrySettings(
    sizing: SizingPolicy,
    persistence: PersistencePolicy,
    rollback: RollbackPolicy,
    fixedSize: nat,
    maxLifetimeSecs: real)

  /** When a value was written: the simulation time and the server frame. */
  datatype Stamp = Stamp(timeMs: real, frame: nat)

  /** A timestamp is valid once it carries a non-negative time. */
  predicate StampValid(s: Stamp)
  {
    s.timeMs >= 0.0
  }

  /** The default and invalidated timestamp. */
  const INVALID_STAMP: Stamp := Stamp(-1.0, 0)

  /** ComputeBufferSize: at least 2, and the declared size when that is larger; other policies keep 2. */
  function ComputeBufferSize(sizing: SizingPolicy, fixedSize: nat): (n: nat)
    ensures n >= 2
    ensures sizing == FixedDeclaredSize ==> n == Max(2, fixedSize)
    ensures sizing != FixedDeclaredSize ==> n == 2
  {
    if sizing == FixedDeclaredSize then Max(2, fixedSize) else 2
  }

  /** The circular buffer's capacity: the requested size rounded up to a power of two. */
  function RingSize(n: nat): (cap: nat)
    ensures cap >= n && cap >= 1
    ensures cap == Pow2(LagCompHistory.CeilLog2(n))
  {
    Pow2(LagCompHistory.CeilLog2(n))
  }

  // ---------------------------------------------------------------------
  // One entry
  // ---------------------------------------------------------------------

  /** One named entry: its settings, the timestamp and value buffers, and the external and internal indices. */
  datatype Entry<V> = Entry(settings: EntrySettings, stamps: seq<Stamp>, values: seq<V>, externalIdx: nat, internalIdx: nat)

  predicate ValidEntry<V>(e: Entry<V>)
  {
    |e.stamps| >= 2 && |e.values| == |e.stamps|
  }

  /** The slot an index refers to. */
  function Slot<V>(e: Entry<V>, idx: nat): (i: nat)
    requires ValidEntry(e)
    ensures i < |e.stamps|
  {
    idx % |e.stamps|
  }

  function StampAt<V>(e: Entry<V>, idx: nat): Stamp
    requires ValidEntry(e)
  {
    e.stamps[Slot(e, idx)]
  }

  /** A new entry: buffers of the computed size, every stamp invalid, both indices 0; values start as the type's default. */
  function NewEntry<V>(settings: EntrySettings, default: V): (e: Entry<V>)
    ensures ValidEntry(e)
    ensures |e.stamps| == RingSize(ComputeBufferSize(settings.sizing, settings.fixedSize))
    ensures e.settings == settings && e.externalIdx == 0 && e.internalIdx == 0
    ensures forall i :: 0 <= i < |e.stamps| ==> !StampValid(e.stamps[i])
  {
    var cap := RingSize(ComputeBufferSize(settings.sizing, settings.fixedSize));
    Entry(settings, seq(cap, _ => INVALID_STAMP), seq(cap, _ => default), 0, 0)
  }

  /** Which index a read uses: outside systems read the external one, the simulation the internal one. */
  datatype IndexType = External | Internal

  function IndexOf<V>(e: Entry<V>, which: IndexType): nat
  {
    if which == External then e.externalIdx else e.internalIdx
  }

  /**
   * CanReadEntryAt: never for an invalid timestamp; a next-frame-only
   * entry only in the frame it was written or the one after; any other
   * policy always.
   */
  predicate CanReadEntryAt<V>(e: Entry<V>, reader: Stamp, which: IndexType)
    requires ValidEntry(e)
  {
    var s := StampAt(e, IndexOf(e, which));
    StampValid(s) &&
    (e.settings.persistence == NextFrameOnly ==> reader.frame == s.frame || reader.frame == s.frame + 1)
  }

  /** TryGetEntryValue and its internal twin: the value at the chosen index when it can be read. */
  function TryGetValue<V>(e: Entry<V>, reader: Stamp, which: IndexType): (r: Option<V>)
    requires ValidEntry(e)
    ensures r.Some? <==> CanReadEntryAt(e, reader, which)
    ensures r.Some? ==> r.value == e.values[Slot(e, IndexOf(e, which))]
  {
    if CanReadEntryAt(e, reader, which) then Some(e.values[Slot(e, IndexOf(e, which))]) else None
  }

  /** SetEntryValue_Internal: the internal index moves one past the external one, and the value and stamp are written there. */
  function SetInternal<V>(e: Entry<V>, v: V, stamp: Stamp): (r: Entry<V>)
    requires ValidEntry(e)
    ensures ValidEntry(r) && |r.stamps| == |e.stamps| && r.settings == e.settings
    ensures r.externalIdx == e.externalIdx && r.internalIdx == e.externalIdx + 1
  {
    var i := Slot(e, e.externalIdx + 1);
    e.(internalIdx := e.externalIdx + 1, stamps := e.stamps[i := stamp], values := e.values[i := v])
  }

  /** OnSimulationFrameEnd: the external index catches up with the internal one. */
  function OnFrameEnd<V>(e: Entry<V>): (r: Entry<V>)
    ensures r.externalIdx == e.internalIdx && r.internalIdx == e.internalIdx
    ensures r.stamps == e.stamps && r.values == e.values && r.settings == e.settings
  {
    e.(externalIdx := e.internalIdx)
  }

  /**
   * A value written in a simulation frame is what the simulation reads
   * back, is hidden from outside readers until the frame ends, and is what
   * they read once it has.
   */
  lemma WriteIsPublishedAtFrameEnd<V>(e: Entry<V>, v: V, stamp: Stamp, reader: Stamp)
    requires ValidEntry(e) && StampValid(stamp) && reader.frame == stamp.frame
    ensures TryGetValue(SetInternal(e, v, stamp), reader, Internal) == Some(v)
    ensures TryGetValue(SetInternal(e, v, stamp), reader, External) == TryGetValue(e, reader, External)
    ensures TryGetValue(OnFrameEnd(SetInternal(e, v, stamp)), reader, External) == Some(v)
  {
    NextSlotDiffers(e.externalIdx, |e.stamps|);
  }

  /** With at least two slots, consecutive indices never share one. */
  lemma NextSlotDiffers(x: nat, n: nat)
    requires n >= 2
    ensures (x + 1) % n != x % n
  {
    var q := x / n;
    var r := x % n;
    assert x == n * q + r;
    if r < n - 1 {
      DivUnique(x + 1, n, q, r + 1);
    } else {
      assert n * (q + 1) == n * q + n;
      DivUnique(x + 1, n, q + 1, 0);
    }
  }

  /**
   * The rollback walk: the highest index in [lowest, idx] whose stamp is
   * valid and older than `newPendingFrame`, if any.
   */
  function FindRollbackIdx<V>(e: Entry<V>, lowest: nat, idx: nat, newPendingFrame: nat): (r: Option<nat>)
    requires ValidEntry(e)
    ensures r.Some? ==> lowest <= r.value <= idx && StampValid(StampAt(e, r.value)) && StampAt(e, r.value).frame < newPendingFrame
    decreases idx
  {
    if idx < lowest then None
    else if StampValid(StampAt(e, idx)) && StampAt(e, idx).frame < newPendingFrame then Some(idx)
    else if idx == 0 then None
    else FindRollbackIdx(e, lowest, idx - 1, newPendingFrame)
  }

  /** The walk finds the highest qualifying index, and finds none only when no index in range qualifies. */
  lemma {:induction false} FindRollbackIdxIsHighest<V>(e: Entry<V>, lowest: nat, idx: nat, newPendingFrame: nat)
    requires ValidEntry(e)
    ensures var r := FindRollbackIdx(e, lowest, idx, newPendingFrame);
      forall j: nat :: lowest <= j <= idx && (r.None? || r.value < j) ==>
        !(StampValid(StampAt(e, j)) && StampAt(e, j).frame < newPendingFrame)
    decreases idx
  {
    if idx >= lowest && !(StampValid(StampAt(e, idx)) && StampAt(e, idx).frame < newPendingFrame) && idx > 0 {
      FindRollbackIdxIsHighest(e, lowest, idx - 1, newPendingFrame);
    }
  }

  /** The lowest index the walk looks at: one capacity below the external index, or 0. */
  function LowestIdx<V>(e: Entry<V>): nat
    requires ValidEntry(e)
  {
    if e.externalIdx > |e.stamps| then e.externalIdx - |e.stamps| else 0
  }

  /**
   * RollBack (checked: no write is in progress): both
   * indices move to the newest value written before the new pending frame,
   * or, when there is none, the current slot's stamp is invalidated.
   */
  function RollBack<V>(e: Entry<V>, newPendingFrame: nat): (r: Entry<V>)
    requires ValidEntry(e) && e.externalIdx == e.internalIdx
    ensures ValidEntry(r) && |r.stamps| == |e.stamps| && r.values == e.values && r.settings == e.settings
    ensures r.externalIdx == r.internalIdx <= e.externalIdx
  {
    match FindRollbackIdx(e, LowestIdx(e), e.externalIdx, newPendingFrame)
    case Some(i) => e.(externalIdx := i, internalIdx := i)
    case None => e.(stamps := e.stamps[Slot(e, e.externalIdx) := INVALID_STAMP])
  }

  /**
   * After a rollback to a frame, nothing written at or after that frame
   * can be read: a readable entry's stamp is older than the frame, and it
   * is the newest such stamp within the last capacity's worth of writes.
   */
  lemma RollBackForgetsLaterFrames<V>(e: Entry<V>, newPendingFrame: nat, reader: Stamp, which: IndexType)
    requires ValidEntry(e) && e.externalIdx == e.internalIdx
    ensures var r := RollBack(e, newPendingFrame);
      (CanReadEntryAt(r, reader, which) ==> StampAt(r, IndexOf(r, which)).frame < newPendingFrame) &&
      forall j: nat :: r.externalIdx < j <= e.externalIdx && LowestIdx(e) <= j ==>
        !(StampValid(StampAt(e, j)) && StampAt(e, j).frame < newPendingFrame)
  {
    FindRollbackIdxIsHighest(e, LowestIdx(e), e.externalIdx, newPendingFrame);
  }

  // ---------------------------------------------------------------------
  // The blackboard
  // ---------------------------------------------------------------------

  /** A pending time step as the blackboard sees it. */
  datatype TimeStep = TimeStep(baseSimTimeMs: real, serverFrame: nat, isResimulating: bool)

  /**
   * The blackboard: its entries by name, whether a simulation frame or a
   * rollback is in progress, and the committed and in-progress stamps.
   * Values of every entry share one type here.
   */
  datatype Blackboard<V> = Blackboard(
    entries: map<string, Entry<V>>,
    simInProgress: bool,
    resimulating: bool,
    rollbackInProgress: bool,
    current: Stamp,
    inProgress: Stamp)

  predicate ValidBlackboard<V>(bb: Blackboard<V>)
  {
    forall k :: k in bb.entries ==> ValidEntry(bb.entries[k])
  }

  /** No entry has an unpublished write: the state outside a simulation frame. */
  predicate Settled<V>(bb: Blackboard<V>)
  {
    forall k :: k in bb.entries ==> bb.entries[k].externalIdx == bb.entries[k].internalIdx
  }

  function EmptyBlackboard<V>(): (bb: Blackboard<V>)
    ensures ValidBlackboard(bb) && Settled(bb)
  {
    Blackboard(map[], false, false, false, INVALID_STAMP, INVALID_STAMP)
  }

  /** CreateEntry: refuses (false) a name that exists, keeping its settings; otherwise adds a new entry. */
  function CreateEntry<V>(bb: Blackboard<V>, name: string, settings: EntrySettings, default: V): (r: (Blackboard<V>, bool))
    requires ValidBlackboard(bb)
    ensures ValidBlackboard(r.0)
    ensures r.1 <==> name !in bb.entries
    ensures !r.1 ==> r.0 == bb
    ensures r.1 ==> r.0.entries == bb.entries[name := NewEntry(settings, default)] && r.0 == bb.(entries := r.0.entries)
  {
    if name in bb.entries then (bb, false)
    else (bb.(entries := bb.entries[name := NewEntry(settings, default)]), true)
  }

  /** TryGet: an outside read at the committed stamp; false for an unknown name. */
  function TryGet<V>(bb: Blackboard<V>, name: string): (r: Option<V>)
    requires ValidBlackboard(bb)
    ensures name !in bb.entries ==> r.None?
    ensures name in bb.entries ==> r == TryGetValue(bb.entries[name], bb.current, External)
  {
    if name in bb.entries then TryGetValue(bb.entries[name], bb.current, External) else None
  }

  /** TryGet_Internal: a simulation read at the in-progress stamp (checked: a frame or rollback is in progress); false for an unknown name. */
  function TryGetInternal<V>(bb: Blackboard<V>, name: string): (r: Option<V>)
    requires ValidBlackboard(bb) && (bb.simInProgress || bb.rollbackInProgress)
    ensures name !in bb.entries ==> r.None?
    ensures name in bb.entries ==> r == TryGetValue(bb.entries[name], bb.inProgress, Internal)
  {
    if name in bb.entries then TryGetValue(bb.entries[name], bb.inProgress, Internal) else None
  }

  /** TrySet_Internal: writes the value with the in-progress stamp; false for an unknown name. */
  function TrySetInternal<V>(bb: Blackboard<V>, name: string, v: V): (r: (Blackboard<V>, bool))
    requires ValidBlackboard(bb) && (bb.simInProgress || bb.rollbackInProgress)
    ensures ValidBlackboard(r.0)
    ensures r.1 <==> name in bb.entries
    ensures !r.1 ==> r.0 == bb
    ensures r.1 ==> r.0 == bb.(entries := bb.entries[name := SetInternal(bb.entries[name], v, bb.inProgress)])
  {
    if name in bb.entries then (bb.(entries := bb.entries[name := SetInternal(bb.entries[name], v, bb.inProgress)]), true)
    else (bb, false)
  }

  /** BeginSimulationFrame (neither a frame nor a rollback may be in progress): the in-progress stamp becomes the step's time and frame. */
  function BeginSimulationFrame<V>(bb: Blackboard<V>, step: TimeStep): (r: Blackboard<V>)
    requires !bb.simInProgress && !bb.rollbackInProgress
    ensures r.simInProgress && r.resimulating == step.isResimulating && r.inProgress == Stamp(step.baseSimTimeMs, step.serverFrame)
    ensures r.entries == bb.entries && r.current == bb.current && !r.rollbackInProgress
  {
    bb.(simInProgress := true, resimulating := step.isResimulating, inProgress := Stamp(step.baseSimTimeMs, step.serverFrame))
  }

  /** EndSimulationFrame (a frame must be in progress): commits the in-progress stamp and publishes every entry's writes. */
  function EndSimulationFrame<V>(bb: Blackboard<V>): (r: Blackboard<V>)
    requires ValidBlackboard(bb) && bb.simInProgress
    ensures ValidBlackboard(r) && Settled(r)
    ensures !r.simInProgress && !r.resimulating && r.current == bb.inProgress
    ensures r.entries.Keys == bb.entries.Keys
    ensures forall k :: k in r.entries ==> r.entries[k] == OnFrameEnd(bb.entries[k])
  {
    var entries := map k | k in bb.entries :: OnFrameEnd(bb.entries[k]);
    bb.(simInProgress := false, resimulating := false, current := bb.inProgress, entries := entries)
  }

  /**
   * BeginRollback (nothing in progress, no unpublished write): every entry
   * rolls back to the new pending frame, and both stamps move to the new
   * base.
   */
  function BeginRollback<V>(bb: Blackboard<V>, step: TimeStep): (r: Blackboard<V>)
    requires ValidBlackboard(bb) && Settled(bb) && !bb.simInProgress && !bb.rollbackInProgress
    ensures ValidBlackboard(r) && Settled(r) && r.rollbackInProgress && !r.simInProgress
    ensures r.current == Stamp(step.baseSimTimeMs, step.serverFrame) && r.inProgress == r.current
    ensures r.entries.Keys == bb.entries.Keys
    ensures forall k :: k in r.entries ==> r.entries[k] == RollBack(bb.entries[k], step.serverFrame)
  {
    var entries := map k | k in bb.entries :: RollBack(bb.entries[k], step.serverFrame);
    var base := Stamp(step.baseSimTimeMs, step.serverFrame);
    bb.(rollbackInProgress := true, entries := entries, current := base, inProgress := base)
  }

  /** EndRollback (a rollback must be in progress). */
  function EndRollback<V>(bb: Blackboard<V>): (r: Blackboard<V>)
    requires bb.rollbackInProgress
    ensures !r.rollbackInProgress && r.entries == bb.entries && r.current == bb.current
  {
    bb.(rollbackInProgress := false)
  }

  /**
   * A whole simulation frame: begin, one internal write, end. The write is
   * what outside readers see afterwards, provided the stamp is valid and
   * the entry is readable in its own frame; every other entry reads as
   * before the frame, apart from the committed stamp moving on.
   */
  lemma SimulationFramePublishesWrite<V>(bb: Blackboard<V>, step: TimeStep, name: string, v: V)
    requires ValidBlackboard(bb) && Settled(bb) && !bb.simInProgress && !bb.rollbackInProgress
    requires name in bb.entries && step.baseSimTimeMs >= 0.0
    ensures var b1 := BeginSimulationFrame(bb, step);
      var b2 := TrySetInternal(b1, name, v).0;
      var b3 := EndSimulationFrame(b2);
      TryGet(b3, name) == Some(v) &&
      forall k :: k in bb.entries && k != name ==> b3.entries[k] == bb.entries[k]
  {
    var b1 := BeginSimulationFrame(bb, step);
    WriteIsPublishedAtFrameEnd(bb.entries[name], v, b1.inProgress, b1.inProgress);
  }

  /**
   * After BeginRollback to a frame, no outside read returns a value
   * written at or after that frame.
   */
  lemma RollbackHidesLaterWrites<V>(bb: Blackboard<V>, step: TimeStep, name: string)
    requires ValidBlackboard(bb) && Settled(bb) && !bb.simInProgress && !bb.rollbackInProgress && name in bb.entries
    ensures var r := BeginRollback(bb, step);
      TryGet(r, name).Some? ==> StampAt(r.entries[name], r.entries[name].externalIdx).frame < step.serverFrame
  {
    var r := BeginRollback(bb, step);
    RollBackForgetsLaterFrames(bb.entries[name], step.serverFrame, r.current, External);
  }

  /**
   * Simulation frames and rollbacks alternate: a second Begin before the
   * End breaks the in-progress check, and after the End a new one may begin.
   */
  lemma FramesAlternate<V>(bb: Blackboard<V>, step: TimeStep)
    requires ValidBlackboard(bb) && !bb.simInProgress && !bb.rollbackInProgress
    ensures var b1 := BeginSimulationFrame(bb, step);
      b1.simInProgress && var b2 := EndSimulationFrame(b1); !b2.simInProgress && !b2.rollbackInProgress
    ensures Settled(bb) ==>
      var r := BeginRollback(bb, step);
      r.rollbackInProgress && var r2 := EndRollback(r); !r2.simInProgress && !r2.rollbackInProgress
  {
  }
}
