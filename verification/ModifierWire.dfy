/**
 * The wire format of the movement-modifier group: each array is a uint8
 * count followed, per slot, by the modifier's struct reference and, for a
 * type derived from the modifier base, its duration and start time. The
 * handle is not on the wire.
 */
module ModifierWire {
  import opened Common
  import opened MovementModifier
  import LayeredMoveWire

  /** FJoltMovementModifierBase's name: every replicated modifier type must derive from it. */
  const MODIFIER_BASE: string := "JoltMovementModifierBase"

  /** The replication guard: walking the super chain from the type reaches the base (the type itself is not checked). */
  predicate DerivesFromModifierBase(t: StructType)
  {
    MODIFIER_BASE in t.supers
  }

  datatype ModField =
    | CountField(count: Byte)
    | StructRef(struct: Option<StructType>, resolved: bool)
    | RealField(r: real)

  /** FJoltMovementModifierBase::NetSerialize: the duration, then the start time. */
  function SaveModifier(m: Modifier): seq<ModField>
  {
    [RealField(m.durationMs), RealField(m.startSimTimeMs)]
  }

  function LoadModifier(fs: seq<ModField>, cur: Modifier): (r: Option<(Modifier, seq<ModField>)>)
    ensures r.Some? ==> r.value.0 == cur.(durationMs := r.value.0.durationMs, startSimTimeMs := r.value.0.startSimTimeMs)
  {
    if |fs| < 2 || !fs[0].RealField? || !fs[1].RealField? then None
    else Some((cur.(durationMs := fs[0].r, startSimTimeMs := fs[1].r), fs[2..]))
  }

  /** Loading the saved fields restores the duration and the start time, and nothing else of the receiving modifier changes. */
  lemma ModifierRoundTrip(m: Modifier, cur: Modifier, tail: seq<ModField>)
    ensures LoadModifier(SaveModifier(m) + tail, cur) == Some((cur.(durationMs := m.durationMs, startSimTimeMs := m.startSimTimeMs), tail))
  {
    assert (SaveModifier(m) + tail)[2..] == tail;
  }

  // ---------------------------------------------------------------------
  // Arrays (NetSerializeMovementModifierArray)
  // ---------------------------------------------------------------------

  /** The saved slots; None is the archive error raised for a type not derived from the base, which stops the loop. */
  function SaveSlots(moves: seq<Option<Modifier>>): (r: Option<seq<ModField>>)
    ensures r.Some? <==> forall i :: 0 <= i < |moves| && moves[i].Some? ==> DerivesFromModifierBase(moves[i].value.struct)
  {
    if |moves| == 0 then Some([])
    else
      assert forall i :: 1 <= i < |moves| ==> moves[1..][i - 1] == moves[i];
      var head :=
        if moves[0].None? then Some([StructRef(None, true)])
        else if DerivesFromModifierBase(moves[0].value.struct) then Some([StructRef(Some(moves[0].value.struct), true)] + SaveModifier(moves[0].value))
        else None;
      match head
      case None => None
      case Some(h) =>
        match SaveSlots(moves[1..])
        case None => None
        case Some(t) => Some(h + t)
  }

  /** Saving an array: the count, clamped to `max`, then that many slots. */
  function SaveArray(moves: seq<Option<Modifier>>, max: Byte): (r: Option<seq<ModField>>)
    ensures r.Some? ==> |r.value| >= 1 && r.value[0] == CountField(Min(|moves|, max))
  {
    var n := Min(|moves|, max);
    match SaveSlots(moves[..n])
    case None => None
    case Some(t) => Some([CountField(n)] + t)
  }

  /** TArray::SetNumZeroed: truncated, or padded with null slots. */
  function SetNumZeroed(s: seq<Option<Modifier>>, n: nat): (r: seq<Option<Modifier>>)
    ensures |r| == n
    ensures forall i :: 0 <= i < n && i < |s| ==> r[i] == s[i]
    ensures forall i :: |s| <= i < n ==> r[i].None?
  {
    if n <= |s| then s[..n] else s + seq(n - |s|, _ => None)
  }

  /** The modifier a slot of type `t` is loaded into: the one already there when it has that type, else a new one. */
  function SlotFor(arr: seq<Option<Modifier>>, i: nat, t: StructType): (cur: Modifier)
    requires i < |arr|
    ensures cur.struct == t
    ensures cur.handle == (if arr[i].Some? && arr[i].value.struct == t then arr[i].value.handle else INVALID_HANDLE)
  {
    if arr[i].Some? && arr[i].value.struct == t then arr[i].value else NewModifier(t)
  }

  /**
   * Loading slots i..n-1 of `arr`. A null reference leaves the slot as it
   * was; an unresolved reference or a type not derived from the base is an
   * error and stops. A slot already holding a modifier of the arriving type
   * is loaded in place (keeping its handle); otherwise a new one is.
   */
  function LoadSlots(fs: seq<ModField>, arr: seq<Option<Modifier>>, i: nat, n: nat): (r: Option<(seq<Option<Modifier>>, seq<ModField>)>)
    requires i <= n == |arr|
    ensures r.Some? ==> |r.value.0| == n
    decreases n - i
  {
    if i == n then Some((arr, fs))
    else if |fs| == 0 || !fs[0].StructRef? then None
    else if fs[0].struct.None? then
      if !fs[0].resolved then None else LoadSlots(fs[1..], arr, i + 1, n)
    else
      var t := fs[0].struct.value;
      if !DerivesFromModifierBase(t) then None
      else
        match LoadModifier(fs[1..], SlotFor(arr, i, t))
        case None => None
        case Some((m, rest)) => LoadSlots(rest, arr[i := Some(m)], i + 1, n)
  }

  /** Loading an array into `existing`: the count, the resize, then the slots. */
  function LoadArray(fs: seq<ModField>, existing: seq<Option<Modifier>>): (r: Option<(seq<Option<Modifier>>, seq<ModField>)>)
    ensures r.Some? ==> |fs| >= 1 && fs[0].CountField? && |r.value.0| == fs[0].count
  {
    if |fs| == 0 || !fs[0].CountField? then None
    else LoadSlots(fs[1..], SetNumZeroed(existing, fs[0].count), 0, fs[0].count)
  }

  /** Every slot holds a modifier whose type may be replicated. */
  predicate Replicable(moves: seq<Option<Modifier>>)
  {
    forall i :: 0 <= i < |moves| ==> moves[i].Some? && DerivesFromModifierBase(moves[i].value.struct)
  }

  /** What arrives in slot i for modifier `m`: its duration and start time, and the handle the receiving slot had for that type, if any. */
  function Arrived(m: Modifier, arr: seq<Option<Modifier>>, i: nat): (r: Modifier)
    requires i < |arr|
    ensures r == m.(handle := SlotFor(arr, i, m.struct).handle)
  {
    SlotFor(arr, i, m.struct).(durationMs := m.durationMs, startSimTimeMs := m.startSimTimeMs)
  }

  lemma SaveSlotsUnfolds(moves: seq<Option<Modifier>>, i: nat)
    requires i < |moves| && Replicable(moves)
    ensures SaveSlots(moves[i..]).Some? && SaveSlots(moves[i + 1..]).Some?
    ensures SaveSlots(moves[i..]).value
      == [StructRef(Some(moves[i].value.struct), true)] + SaveModifier(moves[i].value) + SaveSlots(moves[i + 1..]).value
  {
    assert moves[i..][0] == moves[i] && moves[i..][1..] == moves[i + 1..];
  }

  lemma LoadOneSlot(m: Modifier, rest: seq<ModField>, arr: seq<Option<Modifier>>, i: nat)
    requires i < |arr| && DerivesFromModifierBase(m.struct)
    ensures LoadSlots([StructRef(Some(m.struct), true)] + (SaveModifier(m) + rest), arr, i, |arr|)
         == LoadSlots(rest, arr[i := Some(Arrived(m, arr, i))], i + 1, |arr|)
  {
    ModifierRoundTrip(m, SlotFor(arr, i, m.struct), rest);
    var fs := [StructRef(Some(m.struct), true)] + (SaveModifier(m) + rest);
    assert fs[1..] == SaveModifier(m) + rest;
  }

  lemma {:induction false} LoadSavedSlots(moves: seq<Option<Modifier>>, arr: seq<Option<Modifier>>, i: nat, tail: seq<ModField>)
    requires i <= |moves| == |arr| && Replicable(moves)
    ensures SaveSlots(moves[i..]).Some?
    ensures var r := LoadSlots(SaveSlots(moves[i..]).value + tail, arr, i, |moves|);
      && r.Some? && r.value.1 == tail
      && forall k :: i <= k < |moves| ==> r.value.0[k] == Some(Arrived(moves[k].value, arr, k))
    decreases |moves| - i
  {
    if i < |moves| {
      var m := moves[i].value;
      SaveSlotsUnfolds(moves, i);
      var rest := SaveSlots(moves[i + 1..]).value;
      assert SaveSlots(moves[i..]).value + tail == [StructRef(Some(m.struct), true)] + (SaveModifier(m) + (rest + tail));
      LoadOneSlot(m, rest + tail, arr, i);
      var arr' := arr[i := Some(Arrived(m, arr, i))];
      LoadSavedSlots(moves, arr', i + 1, tail);
      var r := LoadSlots(rest + tail, arr', i + 1, |moves|);
      LoadSlotsKeepsPrefix(rest + tail, arr', i + 1, |moves|);
      assert r.value.0[i] == arr'[i];
      forall k | i < k < |moves|
        ensures r.value.0[k] == Some(Arrived(moves[k].value, arr, k))
      {
        assert SlotFor(arr', k, moves[k].value.struct) == SlotFor(arr, k, moves[k].value.struct);
      }
    } else {
      assert moves[i..] == [];
    }
  }

  /** Loading from slot i on leaves the slots before i alone. */
  lemma {:induction false} LoadSlotsKeepsPrefix(fs: seq<ModField>, arr: seq<Option<Modifier>>, i: nat, n: nat)
    requires i <= n == |arr|
    ensures LoadSlots(fs, arr, i, n).Some? ==> forall k :: 0 <= k < i ==> LoadSlots(fs, arr, i, n).value.0[k] == arr[k]
    decreases n - i
  {
    if i < n && |fs| > 0 && fs[0].StructRef? {
      if fs[0].struct.None? {
        LoadSlotsKeepsPrefix(fs[1..], arr, i + 1, n);
      } else {
        var t := fs[0].struct.value;
        if DerivesFromModifierBase(t) {
          match LoadModifier(fs[1..], SlotFor(arr, i, t))
          case None =>
          case Some((m, rest)) => LoadSlotsKeepsPrefix(rest, arr[i := Some(m)], i + 1, n);
        }
      }
    }
  }

  /**
   * An array of at most `max` replicable modifiers arrives whole and in
   * order: each with its duration and start time, and with the handle of
   * the receiving slot when that held the same type, else the invalid one.
   */
  lemma ArrayRoundTrip(moves: seq<Option<Modifier>>, max: Byte, existing: seq<Option<Modifier>>, tail: seq<ModField>)
    requires |moves| <= max && Replicable(moves)
    ensures SaveArray(moves, max).Some?
    ensures var r := LoadArray(SaveArray(moves, max).value + tail, existing);
      && r.Some? && r.value.1 == tail && |r.value.0| == |moves|
      && forall k :: 0 <= k < |moves| ==> r.value.0[k] == Some(moves[k].value.(handle :=
           if k < |existing| && existing[k].Some? && existing[k].value.struct == moves[k].value.struct
           then existing[k].value.handle else INVALID_HANDLE))
  {
    assert moves[..|moves|] == moves[0..];
    var fs := SaveArray(moves, max).value + tail;
    assert fs[1..] == SaveSlots(moves[0..]).value + tail;
    var arr := SetNumZeroed(existing, |moves|);
    LoadSavedSlots(moves, arr, 0, tail);
  }

  /** A modifier type not derived from the base is refused on load. */
  lemma LoadRefusesForeignModifier(t: StructType, existing: seq<Option<Modifier>>, rest: seq<ModField>)
    requires !DerivesFromModifierBase(t)
    ensures LoadArray([CountField(1), StructRef(Some(t), true)] + rest, existing) == None
  {
    var fs := [CountField(1), StructRef(Some(t), true)] + rest;
    assert fs[1..][0] == StructRef(Some(t), true);
  }

  // ---------------------------------------------------------------------
  // The group
  // ---------------------------------------------------------------------

  /** NetSerialize: the active array up to `max`, then the queued one with the rest of the budget. */
  function SaveGroup(g: Group, max: Byte): Option<seq<ModField>>
  {
    var (a, q) := LayeredMoveWire.Budget(|g.active|, max);
    match SaveArray(g.active, a)
    case None => None
    case Some(fa) =>
      match SaveArray(g.queued, q)
      case None => None
      case Some(fq) => Some(fa + fq)
  }

  function LoadGroup(fs: seq<ModField>, g: Group): Option<(Group, seq<ModField>)>
  {
    match LoadArray(fs, g.active)
    case None => None
    case Some((active, rest)) =>
      match LoadArray(rest, g.queued)
      case None => None
      case Some((queued, rest1)) => Some((Group(active, queued), rest1))
  }

  /**
   * A group of at most `max` replicable modifiers received into an empty
   * group arrives whole, in order, with every handle invalid: handles are
   * local and only the flush's handle donation restores them.
   */
  lemma GroupRoundTrip(g: Group, max: Byte)
    requires |g.active| + |g.queued| <= max && Replicable(g.active) && Replicable(g.queued)
    ensures SaveGroup(g, max).Some?
    ensures var r := LoadGroup(SaveGroup(g, max).value, EMPTY_GROUP);
      && r.Some? && r.value.1 == []
      && |r.value.0.active| == |g.active| && |r.value.0.queued| == |g.queued|
      && (forall k :: 0 <= k < |g.active| ==> r.value.0.active[k] == Some(g.active[k].value.(handle := INVALID_HANDLE)))
      && (forall k :: 0 <= k < |g.queued| ==> r.value.0.queued[k] == Some(g.queued[k].value.(handle := INVALID_HANDLE)))
  {
    var (a, q) := LayeredMoveWire.Budget(|g.active|, max);
    var fq := SaveArray(g.queued, q).value;
    ArrayRoundTrip(g.active, a, [], fq);
    ArrayRoundTrip(g.queued, q, [], []);
    assert fq + [] == fq;
  }
}
