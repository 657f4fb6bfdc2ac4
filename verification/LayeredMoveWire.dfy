/**
 * The wire format of the older layered-move group: each move array is a
 * uint8 count followed, per move, by its struct reference and the move's
 * own fields (mix mode, a default-priority bit and the priority when it is
 * not the default, duration, start time, and the finish-velocity
 * settings). The wire is a sequence of abstract fields.
 */
module LayeredMoveWire {
  import opened Common
  import opened Conversions
  import opened MoverTypes
  import opened LayeredMoveGroup

  /** FJoltLayeredMoveBase's name: every replicated move type must derive from it. */
  const LAYERED_MOVE_BASE: string := "JoltLayeredMoveBase"

  /** The replication guard: some strict super struct is the layered-move base. */
  predicate DerivesFromMoveBase(t: StructType)
  {
    LAYERED_MOVE_BASE in t.supers
  }

  datatype MoveField =
    | CountField(count: Byte)
    | StructField(struct: Option<StructType>, resolved: bool)
    | MixField(mix: MixMode)
    | BitField(bit: bool)
    | ByteField(b: Byte)
    | RealField(r: real)
    | FinishModeField(mode: FinishVelocityMode)
    | VectorField(v: Vec3)

  /** Reads and writes of one move's own fields; None is an archive error. */
  type MoveLoader = (seq<MoveField>, LayeredMove) -> Option<(LayeredMove, seq<MoveField>)>
  type MoveSaver = LayeredMove -> seq<MoveField>

  // ---------------------------------------------------------------------
  // One move
  // ---------------------------------------------------------------------

  /** The fields before the finish settings. */
  function SaveHeader(m: LayeredMove): seq<MoveField>
  {
    [MixField(m.mixMode), BitField(m.priority == 0)]
    + (if m.priority != 0 then [ByteField(m.priority)] else [])
    + [RealField(m.durationMs), RealField(m.startSimTimeMs)]
  }

  /**
   * FJoltLayeredMoveFinishVelocitySettings::NetSerialize with the unset save flag: when
   * saving, the has-settings bit is always 0, so nothing else is written.
   */
  function SaveFinishAsWritten(f: FinishVelocitySettings): (r: seq<MoveField>)
    ensures r == [BitField(false)]
  {
    var hasSettings := false;
    [BitField(hasSettings)]
  }

  /** The settings as evidently intended: the bit says whether the mode is other than the default. */
  function SaveFinish(f: FinishVelocitySettings): (r: seq<MoveField>)
    ensures |r| >= 1 && r[0] == BitField(f.mode != MaintainLastRootMotionVelocity)
  {
    if f.mode == MaintainLastRootMotionVelocity then [BitField(false)]
    else
      [BitField(true), FinishModeField(f.mode)]
      + (if f.mode == SetVelocity then [VectorField(f.setVelocity)] else [RealField(f.clampVelocity)])
  }

  function SaveMoveAsWritten(m: LayeredMove): seq<MoveField>
  {
    SaveHeader(m) + SaveFinishAsWritten(m.finish)
  }

  function SaveMove(m: LayeredMove): seq<MoveField>
  {
    SaveHeader(m) + SaveFinish(m.finish)
  }

  /** The header as read: the mix mode, the priority when one was sent, the duration and the start time. */
  datatype Header = Header(mix: MixMode, priority: Option<Byte>, durationMs: real, startSimTimeMs: real)

  function LoadHeader(fs: seq<MoveField>): (r: Option<(Header, seq<MoveField>)>)
    ensures r.Some? ==> |r.value.1| < |fs|
  {
    if |fs| < 2 || !fs[0].MixField? || !fs[1].BitField? then None
    else
      var rest := fs[2..];
      if !fs[1].bit && (|rest| == 0 || !rest[0].ByteField?) then None
      else
        var priority := if fs[1].bit then None else Some(rest[0].b);
        var rest1 := if fs[1].bit then rest else rest[1..];
        if |rest1| < 2 || !rest1[0].RealField? || !rest1[1].RealField? then None
        else Some((Header(fs[0].mix, priority, rest1[0].r, rest1[1].r), rest1[2..]))
  }

  /** The finish settings as read: None when the has-settings bit was 0, else the mode and the value sent with it. */
  function LoadFinishFields(fs: seq<MoveField>): (r: Option<(Option<FinishVelocitySettings>, seq<MoveField>)>)
  {
    if |fs| == 0 || !fs[0].BitField? then None
    else if !fs[0].bit then Some((None, fs[1..]))
    else if |fs| < 2 || !fs[1].FinishModeField? then None
    else
      var mode := fs[1].mode;
      if mode == SetVelocity then
        if |fs| < 3 || !fs[2].VectorField? then None
        else Some((Some(FinishVelocitySettings(mode, fs[2].v, 0.0)), fs[3..]))
      else if mode == ClampVelocity then
        if |fs| < 3 || !fs[2].RealField? then None
        else Some((Some(FinishVelocitySettings(mode, ZERO_VECTOR, fs[2].r)), fs[3..]))
      else Some((Some(FinishVelocitySettings(mode, ZERO_VECTOR, 0.0)), fs[2..]))
  }

  /** Overwrites the fields of `cur` that arrived: the mode and the value sent with it. */
  function ApplyFinish(cur: FinishVelocitySettings, sent: FinishVelocitySettings): FinishVelocitySettings
  {
    if sent.mode == SetVelocity then cur.(mode := sent.mode, setVelocity := sent.setVelocity)
    else if sent.mode == ClampVelocity then cur.(mode := sent.mode, clampVelocity := sent.clampVelocity)
    else cur.(mode := sent.mode)
  }

  /**
   * FJoltLayeredMoveBase::NetSerialize loading into `cur` in place: the
   * struct `cur` already holds keeps its priority when the default-priority
   * bit is set, and keeps its finish settings when the has-settings bit is 0.
   */
  function LoadMoveAsWritten(fs: seq<MoveField>, cur: LayeredMove): (r: Option<(LayeredMove, seq<MoveField>)>)
    ensures r.Some? ==> r.value.0.struct == cur.struct
  {
    match LoadHeader(fs)
    case None => None
    case Some((h, rest)) =>
      match LoadFinishFields(rest)
      case None => None
      case Some((finish, rest1)) =>
        var m := cur.(mixMode := h.mix, priority := h.priority.GetOr(cur.priority),
                      durationMs := h.durationMs, startSimTimeMs := h.startSimTimeMs,
                      finish := if finish.Some? then ApplyFinish(cur.finish, finish.value) else cur.finish);
        Some((m, rest1))
  }

  /** Loading as evidently intended: a set default bit means priority 0, and a clear has-settings bit the default finish mode. */
  function LoadMove(fs: seq<MoveField>, cur: LayeredMove): (r: Option<(LayeredMove, seq<MoveField>)>)
    ensures r.Some? ==> r.value.0.struct == cur.struct
  {
    match LoadHeader(fs)
    case None => None
    case Some((h, rest)) =>
      match LoadFinishFields(rest)
      case None => None
      case Some((finish, rest1)) =>
        var m := cur.(mixMode := h.mix, priority := h.priority.GetOr(0),
                      durationMs := h.durationMs, startSimTimeMs := h.startSimTimeMs,
                      finish := ApplyFinish(cur.finish, finish.GetOr(DEFAULT_FINISH)));
        Some((m, rest1))
  }

  /** The finish settings that matter: the mode, and the value that mode uses. */
  predicate SameFinish(a: FinishVelocitySettings, b: FinishVelocitySettings)
  {
    && a.mode == b.mode
    && (a.mode == SetVelocity ==> a.setVelocity == b.setVelocity)
    && (a.mode == ClampVelocity ==> a.clampVelocity == b.clampVelocity)
  }

  /** Two moves that agree on everything the wire carries. */
  predicate SameMove(a: LayeredMove, b: LayeredMove)
  {
    a.(finish := b.finish) == b && SameFinish(a.finish, b.finish)
  }

  lemma HeaderRoundTrip(m: LayeredMove, tail: seq<MoveField>)
    ensures LoadHeader(SaveHeader(m) + tail)
      == Some((Header(m.mixMode, if m.priority == 0 then None else Some(m.priority), m.durationMs, m.startSimTimeMs), tail))
  {
    var fs := SaveHeader(m) + tail;
    if m.priority == 0 {
      assert fs[2..][2..] == tail;
    } else {
      assert fs[2..][1..][2..] == tail;
    }
  }

  /** A move survives the corrected wire into any struct of its type, whatever that struct held before. */
  lemma MoveRoundTrip(m: LayeredMove, cur: LayeredMove, tail: seq<MoveField>)
    requires cur.struct == m.struct
    ensures LoadMove(SaveMove(m) + tail, cur).Some?
    ensures var r := LoadMove(SaveMove(m) + tail, cur).value;
      SameMove(r.0, m) && r.1 == tail
  {
    var fin := SaveFinish(m.finish) + tail;
    assert SaveMove(m) + tail == SaveHeader(m) + fin;
    HeaderRoundTrip(m, fin);
    if m.finish.mode == MaintainLastRootMotionVelocity {
      assert fin[1..] == tail;
    } else if m.finish.mode == SetVelocity {
      assert fin[3..] == tail;
    } else {
      assert fin[3..] == tail;
    }
  }

  // ---------------------------------------------------------------------
  // Move arrays (NetSerializeLayeredMovesArray)
  // ---------------------------------------------------------------------

  /** The fields of the saved slots; None when a move's type does not derive from the base (the archive error). */
  function SaveSlots(moves: seq<Option<LayeredMove>>, save: MoveSaver): (r: Option<seq<MoveField>>)
    ensures r.Some? <==> forall i :: 0 <= i < |moves| && moves[i].Some? ==> DerivesFromMoveBase(moves[i].value.struct)
  {
    if |moves| == 0 then Some([])
    else
      assert forall i :: 1 <= i < |moves| ==> moves[1..][i - 1] == moves[i];
      var head :=
        if moves[0].None? then Some([StructField(None, true)])
        else if DerivesFromMoveBase(moves[0].value.struct) then Some([StructField(Some(moves[0].value.struct), true)] + save(moves[0].value))
        else None;
      match head
      case None => None
      case Some(h) =>
        match SaveSlots(moves[1..], save)
        case None => None
        case Some(t) => Some(h + t)
  }

  /** Saving an array: the count, clamped to `max` and sent as a uint8, then that many slots. */
  function SaveArray(moves: seq<Option<LayeredMove>>, max: Byte, save: MoveSaver): (r: Option<seq<MoveField>>)
    ensures r.Some? ==> |r.value| >= 1 && r.value[0] == CountField(Min(|moves|, max))
  {
    var n := Min(|moves|, max);
    match SaveSlots(moves[..n], save)
    case None => None
    case Some(t) => Some([CountField(n)] + t)
  }

  /** TArray::SetNumZeroed: truncated, or padded with null slots. */
  function SetNumZeroed(s: seq<Option<LayeredMove>>, n: nat): (r: seq<Option<LayeredMove>>)
    ensures |r| == n
    ensures forall i :: 0 <= i < n && i < |s| ==> r[i] == s[i]
    ensures forall i :: |s| <= i < n ==> r[i].None?
  {
    if n <= |s| then s[..n] else s + seq(n - |s|, _ => None)
  }

  /**
   * Loading slots i..n-1 of `arr`. A null reference leaves the slot as it
   * was; an unresolved reference or a type not derived from the base is an
   * error and stops. A slot already holding a move of the arriving type is
   * loaded in place; otherwise a freshly constructed move of that type is.
   */
  function LoadSlots(fs: seq<MoveField>, arr: seq<Option<LayeredMove>>, i: nat, n: nat, load: MoveLoader): (r: Option<(seq<Option<LayeredMove>>, seq<MoveField>)>)
    requires i <= n == |arr|
    ensures r.Some? ==> |r.value.0| == n
    decreases n - i
  {
    if i == n then Some((arr, fs))
    else if |fs| == 0 || !fs[0].StructField? then None
    else if fs[0].struct.None? then
      if !fs[0].resolved then None else LoadSlots(fs[1..], arr, i + 1, n, load)
    else
      var t := fs[0].struct.value;
      if !DerivesFromMoveBase(t) then None
      else
        var cur := if arr[i].Some? && arr[i].value.struct == t then arr[i].value else NewMove(t);
        match load(fs[1..], cur)
        case None => None
        case Some((m, rest)) => LoadSlots(rest, arr[i := Some(m)], i + 1, n, load)
  }

  /** Loading an array into `existing`: the count, the resize, then the slots. */
  function LoadArray(fs: seq<MoveField>, existing: seq<Option<LayeredMove>>, load: MoveLoader): (r: Option<(seq<Option<LayeredMove>>, seq<MoveField>)>)
    ensures r.Some? ==> |fs| >= 1 && fs[0].CountField? && |r.value.0| == fs[0].count
  {
    if |fs| == 0 || !fs[0].CountField? then None
    else LoadSlots(fs[1..], SetNumZeroed(existing, fs[0].count), 0, fs[0].count, load)
  }

  /** Every slot holds a move whose type may be replicated. */
  predicate Replicable(moves: seq<Option<LayeredMove>>)
  {
    forall i :: 0 <= i < |moves| ==> moves[i].Some? && DerivesFromMoveBase(moves[i].value.struct)
  }

  /** The slot a move of type `t` is loaded into: the one already there when it has that type, else a new move. */
  function SlotFor(arr: seq<Option<LayeredMove>>, i: nat, t: StructType): (cur: LayeredMove)
    requires i < |arr|
    ensures cur.struct == t
  {
    if arr[i].Some? && arr[i].value.struct == t then arr[i].value else NewMove(t)
  }

  lemma SaveSlotsUnfolds(moves: seq<Option<LayeredMove>>, i: nat)
    requires i < |moves| && Replicable(moves)
    ensures SaveSlots(moves[i..], SaveMove).Some? && SaveSlots(moves[i + 1..], SaveMove).Some?
    ensures SaveSlots(moves[i..], SaveMove).value
      == [StructField(Some(moves[i].value.struct), true)] + SaveMove(moves[i].value) + SaveSlots(moves[i + 1..], SaveMove).value
  {
    assert moves[i..][0] == moves[i] && moves[i..][1..] == moves[i + 1..];
  }

  lemma LoadOneSlot(m: LayeredMove, rest: seq<MoveField>, arr: seq<Option<LayeredMove>>, i: nat)
    requires i < |arr| && DerivesFromMoveBase(m.struct)
    ensures LoadMove(SaveMove(m) + rest, SlotFor(arr, i, m.struct)).Some?
    ensures var loaded := LoadMove(SaveMove(m) + rest, SlotFor(arr, i, m.struct)).value.0;
      && SameMove(loaded, m)
      && LoadSlots([StructField(Some(m.struct), true)] + (SaveMove(m) + rest), arr, i, |arr|, LoadMove)
         == LoadSlots(rest, arr[i := Some(loaded)], i + 1, |arr|, LoadMove)
  {
    MoveRoundTrip(m, SlotFor(arr, i, m.struct), rest);
    var fs := [StructField(Some(m.struct), true)] + (SaveMove(m) + rest);
    assert fs[1..] == SaveMove(m) + rest;
  }

  lemma {:induction false} LoadSavedSlots(moves: seq<Option<LayeredMove>>, arr: seq<Option<LayeredMove>>, i: nat, tail: seq<MoveField>)
    requires i <= |moves| == |arr| && Replicable(moves)
    ensures SaveSlots(moves[i..], SaveMove).Some?
    ensures var r := LoadSlots(SaveSlots(moves[i..], SaveMove).value + tail, arr, i, |moves|, LoadMove);
      && r.Some? && r.value.1 == tail && r.value.0[..i] == arr[..i]
      && forall k :: i <= k < |moves| ==> r.value.0[k].Some? && SameMove(r.value.0[k].value, moves[k].value)
    decreases |moves| - i
  {
    if i < |moves| {
      var m := moves[i].value;
      SaveSlotsUnfolds(moves, i);
      var rest := SaveSlots(moves[i + 1..], SaveMove).value;
      assert SaveSlots(moves[i..], SaveMove).value + tail == [StructField(Some(m.struct), true)] + (SaveMove(m) + (rest + tail)) by {
        ConcatAssoc4([StructField(Some(m.struct), true)], SaveMove(m), rest, tail);
      }
      LoadOneSlot(m, rest + tail, arr, i);
      var loaded := LoadMove(SaveMove(m) + (rest + tail), SlotFor(arr, i, m.struct)).value.0;
      var arr' := arr[i := Some(loaded)];
      LoadSavedSlots(moves, arr', i + 1, tail);
      var r := LoadSlots(rest + tail, arr', i + 1, |moves|, LoadMove);
      SlotsAfterLoadedOne(moves, arr, i, loaded, r.value.0);
    }
  }

  lemma ConcatAssoc4<T>(a: seq<T>, b: seq<T>, c: seq<T>, d: seq<T>)
    ensures a + b + c + d == a + (b + (c + d))
  {
  }

  /** Extending the loaded prefix by slot i, which now holds `loaded`. */
  lemma SlotsAfterLoadedOne(moves: seq<Option<LayeredMove>>, arr: seq<Option<LayeredMove>>, i: nat,
                            loaded: LayeredMove, r: seq<Option<LayeredMove>>)
    requires i < |moves| == |arr| == |r| && Replicable(moves) && SameMove(loaded, moves[i].value)
    requires r[..i + 1] == arr[i := Some(loaded)][..i + 1]
    requires forall k :: i + 1 <= k < |moves| ==> r[k].Some? && SameMove(r[k].value, moves[k].value)
    ensures r[..i] == arr[..i]
    ensures forall k :: i <= k < |moves| ==> r[k].Some? && SameMove(r[k].value, moves[k].value)
  {
    assert r[..i + 1][..i] == r[..i];
    assert arr[i := Some(loaded)][..i + 1][..i] == arr[..i];
    assert r[i] == r[..i + 1][i] == Some(loaded);
  }

  /**
   * Through the corrected wire, an array of at most `max` replicable moves
   * arrives whole, in order, whatever the receiving array held before.
   */
  lemma ArrayRoundTrip(moves: seq<Option<LayeredMove>>, max: Byte, existing: seq<Option<LayeredMove>>, tail: seq<MoveField>)
    requires |moves| <= max && Replicable(moves)
    ensures SaveArray(moves, max, SaveMove).Some?
    ensures var r := LoadArray(SaveArray(moves, max, SaveMove).value + tail, existing, LoadMove);
      && r.Some? && r.value.1 == tail && |r.value.0| == |moves|
      && forall k :: 0 <= k < |moves| ==> r.value.0[k].Some? && SameMove(r.value.0[k].value, moves[k].value)
  {
    assert moves[..|moves|] == moves[0..];
    var fs := SaveArray(moves, max, SaveMove).value + tail;
    assert fs[1..] == SaveSlots(moves[0..], SaveMove).value + tail;
    LoadSavedSlots(moves, SetNumZeroed(existing, |moves|), 0, tail);
  }

  /** A move type not derived from the base is refused on load with an archive error. */
  lemma LoadRefusesForeignMove(t: StructType, existing: seq<Option<LayeredMove>>, rest: seq<MoveField>, load: MoveLoader)
    requires !DerivesFromMoveBase(t)
    ensures LoadArray([CountField(1), StructField(Some(t), true)] + rest, existing, load) == None
  {
    var fs := [CountField(1), StructField(Some(t), true)] + rest;
    assert fs[1..][0] == StructField(Some(t), true);
  }

  // ---------------------------------------------------------------------
  // The group (FJoltLayeredMoveGroup::NetSerialize)
  // ---------------------------------------------------------------------

  /**
   * The counts NetSerialize passes for the active and queued arrays: the
   * active moves first, up to `max`, and the rest of the budget to the queue.
   */
  function Budget(numActive: nat, max: Byte): (r: (Byte, Byte))
    ensures r.0 == Min(numActive, max)
    ensures r.0 + r.1 == max
  {
    var a := Min(numActive, max);
    var q := if a < max then max - a else 0;
    (a, q)
  }

  function SaveGroup(g: Group, max: Byte, save: MoveSaver): Option<seq<MoveField>>
  {
    var (a, q) := Budget(|g.active|, max);
    match SaveArray(g.active, a, save)
    case None => None
    case Some(fa) =>
      match SaveArray(g.queued, q, save)
      case None => None
      case Some(fq) => Some(fa + fq)
  }

  /** Loading a group in place: the active array, then the queued one; the residual and requests are not on the wire. */
  function LoadGroup(fs: seq<MoveField>, g: Group, load: MoveLoader): Option<(Group, seq<MoveField>)>
  {
    match LoadArray(fs, g.active, load)
    case None => None
    case Some((active, rest)) =>
      match LoadArray(rest, g.queued, load)
      case None => None
      case Some((queued, rest1)) => Some((g.(active := active, queued := queued), rest1))
  }

  /** The number of moves a group sends: never more than `max`, active moves first. */
  lemma SentCounts(g: Group, max: Byte)
    ensures var (a, q) := Budget(|g.active|, max);
      && Min(|g.active|, a) + Min(|g.queued|, q) <= max
      && Min(|g.active|, a) == Min(|g.active|, max)
      && (|g.active| + |g.queued| <= max ==> Min(|g.active|, a) == |g.active| && Min(|g.queued|, q) == |g.queued|)
  {
  }

  /**
   * A group holding at most `max` replicable moves survives the corrected
   * wire: both arrays arrive whole and in order into any receiving group.
   */
  lemma GroupRoundTrip(g: Group, max: Byte, receiver: Group)
    requires |g.active| + |g.queued| <= max && Replicable(g.active) && Replicable(g.queued)
    ensures SaveGroup(g, max, SaveMove).Some?
    ensures var r := LoadGroup(SaveGroup(g, max, SaveMove).value, receiver, LoadMove);
      && r.Some? && r.value.1 == []
      && |r.value.0.active| == |g.active| && |r.value.0.queued| == |g.queued|
      && (forall k :: 0 <= k < |g.active| ==> r.value.0.active[k].Some? && SameMove(r.value.0.active[k].value, g.active[k].value))
      && (forall k :: 0 <= k < |g.queued| ==> r.value.0.queued[k].Some? && SameMove(r.value.0.queued[k].value, g.queued[k].value))
  {
    var (a, q) := Budget(|g.active|, max);
    ArrayRoundTrip(g.active, a, receiver.active, SaveArray(g.queued, q, SaveMove).value);
    ArrayRoundTrip(g.queued, q, receiver.queued, []);
    var fq := SaveArray(g.queued, q, SaveMove).value;
    assert fq + [] == fq;
  }

  // ---------------------------------------------------------------------
  // What the unset save flag and the in-place load do instead
  // ---------------------------------------------------------------------

  /** A mover type derived directly from the base, for the examples below. */
  const EXAMPLE_MOVE_TYPE: StructType := MoverDataCollection.StructType("JoltLayeredMove_Example", [LAYERED_MOVE_BASE])

  /**
   * With the unset save flag, a move's SetVelocity finish settings never reach the
   * receiver: loaded into a freshly constructed move, it arrives with the
   * default finish mode, where the corrected wire carries the settings.
   */
  lemma FinishSettingsDoNotReplicate(v: Vec3)
    ensures var m := NewMove(EXAMPLE_MOVE_TYPE).(finish := FinishVelocitySettings(SetVelocity, v, 0.0));
      && LoadMoveAsWritten(SaveMoveAsWritten(m), NewMove(EXAMPLE_MOVE_TYPE)) == Some((NewMove(EXAMPLE_MOVE_TYPE), []))
      && LoadMove(SaveMove(m), NewMove(EXAMPLE_MOVE_TYPE)) == Some((m, []))
  {
    var m := NewMove(EXAMPLE_MOVE_TYPE).(finish := FinishVelocitySettings(SetVelocity, v, 0.0));
    HeaderRoundTrip(m, [BitField(false)]);
    assert [BitField(false)][1..] == [];
    HeaderRoundTrip(m, SaveFinish(m.finish));
    assert SaveFinish(m.finish)[3..] == [];
  }

  /**
   * Loaded in place, a move with the default priority loaded over a
   * move of its type keeps that move's old priority; the corrected load
   * gives it priority 0.
   */
  lemma DefaultPriorityKeepsStaleValue()
    ensures var sent := NewMove(EXAMPLE_MOVE_TYPE);
      var stale := sent.(priority := 5);
      && LoadMoveAsWritten(SaveMoveAsWritten(sent), stale) == Some((stale, []))
      && LoadMove(SaveMove(sent), stale) == Some((sent, []))
  {
    var sent := NewMove(EXAMPLE_MOVE_TYPE);
    HeaderRoundTrip(sent, [BitField(false)]);
    assert [BitField(false)][1..] == [];
    assert SaveMove(sent) == SaveMoveAsWritten(sent) == SaveHeader(sent) + [BitField(false)];
  }
}
