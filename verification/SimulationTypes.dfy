/**
 * The Mover simulation's frame-to-frame containers: the double buffer,
 * the tick end state, the sync state (mode, layered moves, modifiers and
 * the data collection), the simulation output, and the two-slot output
 * record the game thread interpolates from.
 */
module SimulationTypes {
  import opened Common
  import opened MoverTypes
  import MDC = MoverDataCollection
  import LG = LayeredMoveGroup
  import LMI = LayeredMoveInstances
  import MM = MovementModifier

  // ---------------------------------------------------------------------
  // FJoltMoverDoubleBuffer
  // ---------------------------------------------------------------------

  /** A slot of a two-slot buffer. The read index starts at 0 and only ever moves by (i + 1) % 2. */
  type SlotIndex = i: int | 0 <= i < 2

  function Other(i: SlotIndex): (j: SlotIndex)
    ensures j != i
  {
    (i + 1) % 2
  }

  datatype DoubleBuffer<T> = DoubleBuffer(readIndex: SlotIndex, buffer0: T, buffer1: T)

  function Slot<T>(b: DoubleBuffer<T>, i: SlotIndex): T
  {
    if i == 0 then b.buffer0 else b.buffer1
  }

  function WithSlot<T>(b: DoubleBuffer<T>, i: SlotIndex, x: T): (r: DoubleBuffer<T>)
    ensures r.readIndex == b.readIndex && Slot(r, i) == x && Slot(r, Other(i)) == Slot(b, Other(i))
  {
    if i == 0 then b.(buffer0 := x) else b.(buffer1 := x)
  }

  /** SetBufferedData: both slots hold the value; which one is read does not change. */
  function SetBufferedData<T>(b: DoubleBuffer<T>, x: T): (r: DoubleBuffer<T>)
    ensures r.readIndex == b.readIndex && GetReadable(r) == x && GetWritable(r) == x
  {
    b.(buffer0 := x, buffer1 := x)
  }

  function GetReadable<T>(b: DoubleBuffer<T>): T
  {
    Slot(b, b.readIndex)
  }

  /** GetWritable: the slot other than the readable one. */
  function GetWritable<T>(b: DoubleBuffer<T>): T
  {
    Slot(b, Other(b.readIndex))
  }

  /** Writing through GetWritable: the readable value is untouched. */
  function SetWritable<T>(b: DoubleBuffer<T>, x: T): (r: DoubleBuffer<T>)
    ensures GetReadable(r) == GetReadable(b) && GetWritable(r) == x
  {
    WithSlot(b, Other(b.readIndex), x)
  }

  /** Flip: the readable and writable slots swap roles. */
  function Flip<T>(b: DoubleBuffer<T>): (r: DoubleBuffer<T>)
    ensures GetReadable(r) == GetWritable(b) && GetWritable(r) == GetReadable(b)
  {
    b.(readIndex := Other(b.readIndex))
  }

  /** What was written is what is read after the flip, and the value read before is now the one written over. */
  lemma WriteThenFlipPublishes<T>(b: DoubleBuffer<T>, x: T)
    ensures GetReadable(Flip(SetWritable(b, x))) == x
    ensures GetWritable(Flip(SetWritable(b, x))) == GetReadable(b)
    ensures Flip(Flip(b)) == b
  {
  }

  // ---------------------------------------------------------------------
  // FJoltMovementModeTickEndState
  // ---------------------------------------------------------------------

  datatype TickEndState = TickEndState(remainingMs: real, nextModeName: string, endedWithNoChanges: bool)

  /** ResetToDefaults: no time left, no next mode, and no claim that nothing changed. */
  function ResetToDefaults(s: TickEndState): (r: TickEndState)
    ensures r.remainingMs == 0.0 && r.nextModeName == NAME_NONE && !r.endedWithNoChanges
  {
    TickEndState(0.0, NAME_NONE, false)
  }

  /** A reset end state keeps nothing of what a mode reported before. */
  lemma ResetForgetsTick(s: TickEndState, t: TickEndState)
    ensures ResetToDefaults(s) == ResetToDefaults(t)
  {
  }

  // ---------------------------------------------------------------------
  // FJoltMoverSyncState
  // ---------------------------------------------------------------------

  datatype SyncState<V> = SyncState(
    movementMode: string,
    layeredMoves: LG.Group,
    layeredMoveInstances: LMI.InstanceGroup,
    modifiers: MM.Group,
    collection: seq<MDC.Data<V>>)

  /** The default-constructed sync state. */
  function DefaultSyncState<V>(): (r: SyncState<V>)
    ensures r.movementMode == NAME_NONE && r.collection == []
  {
    SyncState(NAME_NONE, LG.NEW_GROUP, LMI.NEW_INSTANCE_GROUP, MM.EMPTY_GROUP, [])
  }

  /** No group holds a null slot (what the groups' own comparisons dereference). */
  predicate NoNulls<V>(s: SyncState<V>)
  {
    && LG.NoNulls(s.layeredMoves) && LMI.NoNulls(s.layeredMoveInstances)
    && MM.NoNulls(s.modifiers.active) && MM.NoNulls(s.modifiers.queued)
  }

  /** HasSameContents: the same mode and, part by part, the same contents. */
  function HasSameContents<V>(s: SyncState<V>, o: SyncState<V>): (r: bool)
    requires NoNulls(s) && NoNulls(o)
    ensures r ==> s.movementMode == o.movementMode && MM.Equal(s.modifiers, o.modifiers) && |s.collection| == |o.collection|
  {
    && s.movementMode == o.movementMode
    && LG.HasSameContents(s.layeredMoves, o.layeredMoves)
    && LMI.HasSameContents(s.layeredMoveInstances, o.layeredMoveInstances)
    && MM.HasSameContents(s.modifiers, o.modifiers)
    && MDC.HasSameContents(s.collection, o.collection)
  }

  /** ShouldReconcile: a different mode, a collection that reconciles, or modifiers that do; the layered moves are not compared. */
  function ShouldReconcile<V>(s: SyncState<V>, authority: SyncState<V>, differs: (V, V) -> bool): (r: bool)
    requires NoNulls(s) && NoNulls(authority)
    ensures !r ==> s.movementMode == authority.movementMode && |s.collection| == |authority.collection|
    ensures !r ==> MM.HasSameContents(s.modifiers, authority.modifiers)
  {
    || s.movementMode != authority.movementMode
    || MDC.ShouldReconcile(s.collection, authority.collection, differs)
    || MM.ShouldReconcile(s.modifiers, authority.modifiers)
  }

  /** Layered moves never trigger a correction: the authority's moves may differ arbitrarily. */
  lemma ReconcileIgnoresLayeredMoves<V>(s: SyncState<V>, authority: SyncState<V>, differs: (V, V) -> bool,
                                        moves: LG.Group, instances: LMI.InstanceGroup)
    requires NoNulls(s) && NoNulls(authority) && LG.NoNulls(moves) && LMI.NoNulls(instances)
    ensures ShouldReconcile(s, authority.(layeredMoves := moves, layeredMoveInstances := instances), differs)
         == ShouldReconcile(s, authority, differs)
  {
  }

  /** A different modifier type in some active slot always forces a correction. */
  lemma ModifierTypeMismatchReconciles<V>(s: SyncState<V>, authority: SyncState<V>, differs: (V, V) -> bool, i: nat)
    requires NoNulls(s) && NoNulls(authority)
    requires i < |s.modifiers.active| && i < |authority.modifiers.active|
    requires s.modifiers.active[i].value.struct != authority.modifiers.active[i].value.struct
    ensures ShouldReconcile(s, authority, differs)
  {
  }

  /**
   * Interpolate: the mode is taken from To and every move and modifier
   * group is assigned from To through its operator=, so the layered-move
   * groups keep this state's residual velocity and the older group and the
   * modifiers lose To's null slots; only the collection is interpolated
   * (into this state's collection).
   */
  function Interpolate<V>(s: SyncState<V>, from: SyncState<V>, to: SyncState<V>, pct: real, h: MDC.Hooks<V>, copyInPlace: bool)
    : (r: SyncState<V>)
    ensures r.movementMode == to.movementMode
    ensures r.layeredMoves.residual == s.layeredMoves.residual && r.layeredMoveInstances.residual == s.layeredMoveInstances.residual
    ensures r.layeredMoves.cancels == to.layeredMoves.cancels && r.layeredMoveInstances.cancels == to.layeredMoveInstances.cancels
    ensures r.layeredMoveInstances.active == to.layeredMoveInstances.active && r.layeredMoveInstances.queued == to.layeredMoveInstances.queued
    ensures LG.NoNulls(r.layeredMoves) && MM.NoNulls(r.modifiers.active) && MM.NoNulls(r.modifiers.queued)
    ensures NoNulls(to) ==> NoNulls(r)
    ensures NoNulls(to) ==> r.layeredMoves == to.layeredMoves.(residual := s.layeredMoves.residual) && r.modifiers == to.modifiers
    ensures MDC.Grows(s.collection, r.collection)
  {
    SyncState(
      to.movementMode,
      LG.Assign(s.layeredMoves, to.layeredMoves, copyInPlace),
      LMI.Assign(s.layeredMoveInstances, to.layeredMoveInstances),
      MM.Assign(s.modifiers, to.modifiers, copyInPlace),
      MDC.Interpolate(s.collection, from.collection, to.collection, pct, h))
  }

  /**
   * The residual velocity a state has gathered survives any interpolation,
   * and what the groups end up holding depends neither on From nor on the
   * blend fraction nor on whether copying in place is enabled.
   */
  lemma InterpolateGroupsComeFromTo<V>(s: SyncState<V>, from: SyncState<V>, from': SyncState<V>, to: SyncState<V>,
                                       pct: real, pct': real, h: MDC.Hooks<V>, copyInPlace: bool, copyInPlace': bool)
    ensures var r := Interpolate(s, from, to, pct, h, copyInPlace);
      var r' := Interpolate(s, from', to, pct', h, copyInPlace');
      && r.movementMode == r'.movementMode && r.layeredMoves == r'.layeredMoves
      && r.layeredMoveInstances == r'.layeredMoveInstances && r.modifiers == r'.modifiers
  {
  }

  /** Every data type of either end survives the interpolation. */
  lemma InterpolateKeepsEveryType<V>(s: SyncState<V>, from: SyncState<V>, to: SyncState<V>, pct: real, h: MDC.Hooks<V>, copyInPlace: bool)
    ensures var r := Interpolate(s, from, to, pct, h, copyInPlace);
      && (forall j :: 0 <= j < |from.collection| ==> MDC.Present(r.collection, from.collection[j].struct.name))
      && (forall j :: 0 <= j < |to.collection| ==> MDC.Present(r.collection, to.collection[j].struct.name))
  {
    MDC.InterpolateKeepsAllTypes(s.collection, from.collection, to.collection, pct, h);
  }

  /** Reset: no mode, an empty collection, and every group reset. */
  function Reset<V>(s: SyncState<V>): (r: SyncState<V>)
    ensures r.movementMode == NAME_NONE && r.collection == []
    ensures r.layeredMoves == LG.NEW_GROUP && r.layeredMoveInstances == LMI.NEW_INSTANCE_GROUP && r.modifiers == MM.EMPTY_GROUP
  {
    SyncState(NAME_NONE, LG.Reset(s.layeredMoves), LMI.Reset(s.layeredMoveInstances), MM.Reset(s.modifiers), [])
  }

  /** A reset state is the default-constructed one, so any two reset states agree. */
  lemma ResetIsDefault<V>(s: SyncState<V>)
    ensures Reset(s) == DefaultSyncState()
    ensures NoNulls(Reset(s)) && HasSameContents(Reset(s), DefaultSyncState())
  {
  }

  // ---------------------------------------------------------------------
  // FJoltSimulationOutputData
  // ---------------------------------------------------------------------

  /** A simulation event: when it happened, and which one it is (its payload is not modelled). */
  datatype Event = Event(timeMs: real, id: nat)

  datatype OutputData<V> = OutputData(
    sync: SyncState<V>,
    lastUsedInput: seq<MDC.Data<V>>,
    additional: seq<MDC.Data<V>>,
    events: seq<Event>)

  function DefaultOutput<V>(): OutputData<V>
  {
    OutputData(DefaultSyncState(), [], [], [])
  }

  /** Reset: the sync state reset and the input, the additional output and the events emptied. */
  function ResetOutput<V>(d: OutputData<V>): (r: OutputData<V>)
    ensures r == DefaultOutput()
  {
    ResetIsDefault(d.sync);
    OutputData(Reset(d.sync), [], [], [])
  }

  /** Interpolate: sync state, last input and additional output are interpolated; the events are left as they were. */
  function InterpolateOutput<V>(d: OutputData<V>, from: OutputData<V>, to: OutputData<V>, alpha: real, h: MDC.Hooks<V>, copyInPlace: bool)
    : (r: OutputData<V>)
    ensures r.events == d.events && r.sync.movementMode == to.sync.movementMode
    ensures r.sync.layeredMoves.residual == d.sync.layeredMoves.residual
    ensures NoNulls(to.sync) ==> r.sync.modifiers == to.sync.modifiers
  {
    OutputData(
      Interpolate(d.sync, from.sync, to.sync, alpha, h, copyInPlace),
      MDC.Interpolate(d.lastUsedInput, from.lastUsedInput, to.lastUsedInput, alpha, h),
      MDC.Interpolate(d.additional, from.additional, to.additional, alpha, h),
      d.events)
  }

  // ---------------------------------------------------------------------
  // FJoltSimulationOutputRecord
  // ---------------------------------------------------------------------

  datatype RecordData<V> = RecordData(timeStep: TimeStep, output: OutputData<V>)

  datatype Record<V> = Record(data: DoubleBuffer<RecordData<V>>, events: seq<Event>)

  /** The slot Add wrote last (CurrentIndex, which starts at 1). */
  function Current<V>(rec: Record<V>): RecordData<V>
  {
    Slot(rec.data, rec.data.readIndex)
  }

  /** The slot written before it. */
  function Previous<V>(rec: Record<V>): RecordData<V>
  {
    Slot(rec.data, Other(rec.data.readIndex))
  }

  function ResetData<V>(d: RecordData<V>): (r: RecordData<V>)
    ensures r == RecordData(DEFAULT_TIME_STEP, DefaultOutput())
  {
    RecordData(DEFAULT_TIME_STEP, ResetOutput(d.output))
  }

  /**
   * The record's shape between calls: the current slot's events have been
   * handed to the record, and the previous slot only still holds events
   * when it is a resimulation's copy of the current slot's time.
   */
  predicate WellFormed<V>(rec: Record<V>)
  {
    && Current(rec).output.events == []
    && (Previous(rec).output.events != [] ==> Previous(rec).timeStep.baseSimTimeMs == Current(rec).timeStep.baseSimTimeMs)
  }

  /** Clear: index 1, both slots reset and no events. */
  function Clear<V>(rec: Record<V>): (r: Record<V>)
    ensures r.data.readIndex == 1 && r.events == [] && WellFormed(r)
    ensures Current(r) == ResetData(Current(rec)) && Previous(r) == ResetData(Previous(rec))
  {
    var d0 := ResetData(rec.data.buffer0);
    var d1 := ResetData(rec.data.buffer1);
    Record(DoubleBuffer(1, d0, d1), [])
  }

  /** The events a resimulated step keeps: those strictly before its base time. */
  predicate BeforeStep(ts: TimeStep, e: Event)
  {
    e.timeMs < ts.baseSimTimeMs
  }

  /**
   * Add: the step is written into the other slot, which becomes current.
   * On a resimulation a previous slot later than the step is replaced by
   * the step, and recorded events at or after its base time are dropped.
   * The step's events move to the end of the record's list.
   */
  function Add<V>(rec: Record<V>, ts: TimeStep, d: OutputData<V>): (r: Record<V>)
    ensures r.data.readIndex != rec.data.readIndex
    ensures Current(r) == RecordData(ts, d.(events := []))
    ensures !ts.isResimulating ==> Previous(r) == Current(rec)
    ensures ts.isResimulating ==> Previous(r).timeStep.baseSimTimeMs <= ts.baseSimTimeMs
    ensures |d.events| <= |r.events| && r.events[|r.events| - |d.events|..] == d.events
    ensures forall e :: e in r.events[..|r.events| - |d.events|] <==> e in rec.events && (!ts.isResimulating || BeforeStep(ts, e))
  {
    var written := RecordData(ts, d);
    var cur := Other(rec.data.readIndex);
    var prev := Current(rec);
    var prev' := if ts.isResimulating && prev.timeStep.baseSimTimeMs > ts.baseSimTimeMs then written else prev;
    var kept := if ts.isResimulating then Filter(rec.events, (e: Event) => BeforeStep(ts, e)) else rec.events;
    var events := kept + d.events;
    assert events[..|kept|] == kept && events[|kept|..] == d.events;
    var buf := WithSlot(WithSlot(rec.data, rec.data.readIndex, prev'), cur, RecordData(ts, d.(events := [])));
    Record(buf.(readIndex := cur), events)
  }

  /** GetLatest: what the last Add stored, without its events. */
  function GetLatest<V>(rec: Record<V>): OutputData<V>
  {
    Current(rec).output
  }

  lemma AddKeepsWellFormed<V>(rec: Record<V>, ts: TimeStep, d: OutputData<V>)
    requires WellFormed(rec)
    ensures WellFormed(Add(rec, ts, d))
    ensures GetLatest(Add(rec, ts, d)) == d.(events := [])
  {
  }

  /** What CreateInterpolatedResult picks, by the time asked for. */
  datatype Pick = PickCurrent | PickPrevious | Blend(alpha: real)

  function PickFor<V>(rec: Record<V>, atMs: real): (p: Pick)
    ensures p.Blend? <==> Previous(rec).timeStep.baseSimTimeMs < atMs < Current(rec).timeStep.baseSimTimeMs
                          && !NearlyEqual(Previous(rec).timeStep.baseSimTimeMs, Current(rec).timeStep.baseSimTimeMs)
    ensures p.Blend? ==> 0.0 <= p.alpha <= 1.0
  {
    var prevMs := Previous(rec).timeStep.baseSimTimeMs;
    var curMs := Current(rec).timeStep.baseSimTimeMs;
    if NearlyEqual(prevMs, curMs) || atMs >= curMs then PickCurrent
    else if atMs <= prevMs then PickPrevious
    else Blend(RealClamp((atMs - prevMs) / (curMs - prevMs), 0.0, 1.0))
  }

  /** Whether an event is due by the time asked for. */
  predicate DueBy(atMs: real, e: Event)
  {
    e.timeMs <= atMs
  }

  /**
   * CreateInterpolatedResult: the output for `atMs` (written over `out`),
   * its time step, and the record with the due events handed out.
   */
  function CreateInterpolatedResult<V>(rec: Record<V>, atMs: real, out: OutputData<V>, h: MDC.Hooks<V>, copyInPlace: bool)
    : (r: (Record<V>, TimeStep, OutputData<V>))
    ensures r.0.data == rec.data && r.1.baseSimTimeMs == atMs
    ensures forall e :: e in rec.events ==> (e in r.0.events <==> !DueBy(atMs, e))
    ensures forall e :: e in r.0.events ==> e in rec.events
  {
    var (ts, d) :=
      match PickFor(rec, atMs)
      case PickCurrent => (Current(rec).timeStep, Current(rec).output)
      case PickPrevious => (Previous(rec).timeStep, Previous(rec).output)
      case Blend(alpha) => (Previous(rec).timeStep, InterpolateOutput(out, Previous(rec).output, Current(rec).output, alpha, h, copyInPlace));
    var due := Filter(rec.events, (e: Event) => DueBy(atMs, e));
    var rest := Filter(rec.events, (e: Event) => !DueBy(atMs, e));
    (rec.(events := rest), ts.(baseSimTimeMs := atMs), d.(events := d.events + due))
  }

  /** Blending only happens strictly between the two stored times, so the clamp never changes the ratio. */
  lemma BlendIsStrictlyBetween<V>(rec: Record<V>, atMs: real)
    requires PickFor(rec, atMs).Blend?
    ensures var prevMs := Previous(rec).timeStep.baseSimTimeMs;
      var curMs := Current(rec).timeStep.baseSimTimeMs;
      && prevMs < curMs
      && PickFor(rec, atMs).alpha == (atMs - prevMs) / (curMs - prevMs)
      && 0.0 < PickFor(rec, atMs).alpha < 1.0
  {
    var prevMs := Previous(rec).timeStep.baseSimTimeMs;
    var curMs := Current(rec).timeStep.baseSimTimeMs;
    RatioBetween(atMs - prevMs, curMs - prevMs);
  }

  lemma RatioBetween(x: real, y: real)
    requires 0.0 < x < y
    ensures 0.0 < x / y < 1.0
  {
    var q := x / y;
    assert q * y == x;
    if q <= 0.0 {
      MulNonneg(-q, y);
    }
    if q >= 1.0 {
      MulNonneg(q - 1.0, y);
    }
  }

  /**
   * On a well-formed record the output's events are exactly the record's
   * due events, in order: the stored slots never contribute stale events
   * (a blend keeps whatever the output held before).
   */
  lemma OutputEventsAreDueEvents<V>(rec: Record<V>, atMs: real, out: OutputData<V>, h: MDC.Hooks<V>, copyInPlace: bool)
    requires WellFormed(rec)
    ensures var r := CreateInterpolatedResult(rec, atMs, out, h, copyInPlace);
      r.2.events == (if PickFor(rec, atMs).Blend? then out.events else []) + Filter(rec.events, (e: Event) => DueBy(atMs, e))
  {
  }

  /** Asking for the latest time or later gives the latest result, at the time asked for. */
  lemma LatestAtOrAfterCurrent<V>(rec: Record<V>, atMs: real, out: OutputData<V>, h: MDC.Hooks<V>, copyInPlace: bool)
    requires WellFormed(rec) && atMs >= Current(rec).timeStep.baseSimTimeMs
    ensures var r := CreateInterpolatedResult(rec, atMs, out, h, copyInPlace);
      && r.2.sync == GetLatest(rec).sync && r.2.lastUsedInput == GetLatest(rec).lastUsedInput
      && r.1 == Current(rec).timeStep.(baseSimTimeMs := atMs)
  {
  }

  /** Every recorded event goes out exactly once: the handed-out and the kept events together are the recorded ones. */
  lemma EventsConserved<V>(rec: Record<V>, atMs: real, out: OutputData<V>, h: MDC.Hooks<V>, copyInPlace: bool)
    ensures var r := CreateInterpolatedResult(rec, atMs, out, h, copyInPlace);
      multiset(Filter(rec.events, (e: Event) => DueBy(atMs, e))) + multiset(r.0.events) == multiset(rec.events)
  {
    FilterPartition(rec.events, (e: Event) => DueBy(atMs, e), (e: Event) => !DueBy(atMs, e));
  }

  /** Filtering by a predicate and by its negation splits a sequence's elements between the two results. */
  lemma {:induction false} FilterPartition<T>(s: seq<T>, keep: T -> bool, drop: T -> bool)
    requires forall x :: drop(x) == !keep(x)
    ensures multiset(Filter(s, keep)) + multiset(Filter(s, drop)) == multiset(s)
  {
    if |s| > 0 {
      FilterPartition(s[1..], keep, drop);
      assert s == [s[0]] + s[1..];
    }
  }

  /** After Clear, any time asked for gives the default output with no events. */
  lemma ClearedRecordGivesDefaults<V>(rec: Record<V>, atMs: real, out: OutputData<V>, h: MDC.Hooks<V>, copyInPlace: bool)
    ensures var r := CreateInterpolatedResult(Clear(rec), atMs, out, h, copyInPlace);
      r.2 == DefaultOutput() && r.1 == DEFAULT_TIME_STEP.(baseSimTimeMs := atMs) && r.0.events == []
  {
  }
}
