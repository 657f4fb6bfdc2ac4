/**
 * The wire format of the move-instance group: each array is a uint8 count
 * followed, per instance, by the data's struct reference, the logic's
 * class reference and, for a data type derived from the instanced-data
 * base, the data's own fields (start time, then duration). The logic
 * object itself never travels: a received instance only remembers the
 * class, and PopulateMissingActiveMoveLogic binds it to a registered logic.
 */
module LayeredMoveInstanceWire {
  import opened Common
  import opened Conversions
  import MoverDataCollection
  import opened MoverTypes
  import opened LayeredMoveInstances

  datatype InstField =
    | CountField(count: Byte)
    | DataRef(struct: Option<StructType>, resolved: bool)
    | ClassRef(cls: Option<string>)
    | RealField(r: real)

  /** The replication guard: the data type is the instanced-data base or derives from it (IsChildOf is inclusive). */
  predicate DerivesFromData(t: StructType)
  {
    MoverDataCollection.IsA(t, INSTANCED_DATA_BASE)
  }

  // ---------------------------------------------------------------------
  // One instance
  // ---------------------------------------------------------------------

  /** The instanced data's NetSerialize: the start time, then the duration. */
  function SaveData(d: InstancedData): seq<InstField>
  {
    [RealField(d.startSimTimeMs), RealField(d.durationMs)]
  }

  function LoadData(fs: seq<InstField>, cur: InstancedData): (r: Option<(InstancedData, seq<InstField>)>)
    ensures r.Some? ==> r.value.0.struct == cur.struct && |r.value.1| < |fs|
  {
    if |fs| < 2 || !fs[0].RealField? || !fs[1].RealField? then None
    else Some((cur.(startSimTimeMs := fs[0].r, durationMs := fs[1].r), fs[2..]))
  }

  /** Saving an instance; None is the archive error raised for a data type not derived from the base. */
  function SaveInstance(inst: Instance): (r: Option<seq<InstField>>)
    ensures r.Some? <==> DerivesFromData(inst.data.struct)
  {
    var cls := if inst.logic.Some? then Some(inst.logic.value.logicClass) else None;
    if DerivesFromData(inst.data.struct) then
      Some([DataRef(Some(inst.data.struct), true), ClassRef(cls)] + SaveData(inst.data))
    else None
  }

  /** The instance a receiving slot is filled with before loading: base data, no logic. */
  const FRESH_INSTANCE: Instance := Instance(NewData(BASE_DATA_TYPE), None, None)

  /**
   * Loading into a fresh instance: the data reference, the class reference
   * (remembered, since the fresh instance has no logic), then, for a valid
   * reference, the data reallocated to the arriving type when it differs
   * and loaded. A null reference leaves the base data; an unresolved one
   * or a type not derived from the base is an archive error.
   */
  function LoadInstance(fs: seq<InstField>): (r: Option<(Instance, seq<InstField>)>)
    ensures r.Some? ==> r.value.0.logic.None? && |r.value.1| < |fs|
    ensures r.Some? ==> |fs| >= 2 && fs[0].DataRef? && fs[1].ClassRef? && r.value.0.serializedClass == fs[1].cls
  {
    if |fs| < 2 || !fs[0].DataRef? || !fs[1].ClassRef? then None
    else
      var inst := FRESH_INSTANCE.(serializedClass := fs[1].cls);
      if fs[0].struct.None? then
        if fs[0].resolved then Some((inst, fs[2..])) else None
      else
        var t := fs[0].struct.value;
        if !DerivesFromData(t) then None
        else
          var cur := if t != inst.data.struct then NewData(t) else inst.data;
          match LoadData(fs[2..], cur)
          case None => None
          case Some((d, rest)) => Some((inst.(data := d), rest))
  }

  /**
   * An instance with logic and a replicable data type arrives with the same
   * data, no logic and its logic's class remembered.
   */
  lemma InstanceRoundTrip(inst: Instance, tail: seq<InstField>)
    requires inst.logic.Some? && DerivesFromData(inst.data.struct)
    ensures SaveInstance(inst).Some?
    ensures LoadInstance(SaveInstance(inst).value + tail)
      == Some((Instance(inst.data, None, Some(inst.logic.value.logicClass)), tail))
  {
    var fs := SaveInstance(inst).value + tail;
    assert fs[2..] == SaveData(inst.data) + tail;
    assert fs[2..][2..] == tail;
  }

  /**
   * Binding the received instance to the registry restores the original
   * logic whenever that logic is the first registered one of its class.
   */
  lemma PopulateRestoresLogic(inst: Instance, registered: seq<Logic>, tail: seq<InstField>)
    requires inst.logic.Some? && DerivesFromData(inst.data.struct)
    requires FirstWithClass(registered, inst.logic.value.logicClass) == inst.logic
    ensures SaveInstance(inst).Some?
    ensures var loaded := LoadInstance(SaveInstance(inst).value + tail).value.0;
      PopulateLogic(loaded, registered) == (true, inst.(serializedClass := Some(inst.logic.value.logicClass)))
  {
    InstanceRoundTrip(inst, tail);
  }

  /** A received instance whose class no registered logic has stays without logic. */
  lemma UnregisteredClassStaysUnbound(inst: Instance, registered: seq<Logic>, tail: seq<InstField>)
    requires inst.logic.Some? && DerivesFromData(inst.data.struct)
    requires forall i :: 0 <= i < |registered| ==> registered[i].logicClass != inst.logic.value.logicClass
    ensures SaveInstance(inst).Some?
    ensures var loaded := LoadInstance(SaveInstance(inst).value + tail).value.0;
      && !PopulateLogic(loaded, registered).0
      && IsFinished(PopulateLogic(loaded, registered).1, DEFAULT_TIME_STEP)
  {
    InstanceRoundTrip(inst, tail);
  }

  // ---------------------------------------------------------------------
  // Arrays (the NetSerializeMovesArrayFunc lambda)
  // ---------------------------------------------------------------------

  predicate NoNullSlots(s: seq<Option<Instance>>)
  {
    forall i :: 0 <= i < |s| ==> s[i].Some?
  }

  /** The saved slots; the sender dereferences every slot, and None is an archive error. */
  function SaveSlots(moves: seq<Option<Instance>>): (r: Option<seq<InstField>>)
    requires NoNullSlots(moves)
    ensures r.Some? <==> forall i :: 0 <= i < |moves| ==> DerivesFromData(moves[i].value.data.struct)
  {
    if |moves| == 0 then Some([])
    else
      assert forall i :: 1 <= i < |moves| ==> moves[1..][i - 1] == moves[i];
      match SaveInstance(moves[0].value)
      case None => None
      case Some(h) =>
        match SaveSlots(moves[1..])
        case None => None
        case Some(t) => Some(h + t)
  }

  /** Saving an array: the count, clamped to `max`, then that many slots. */
  function SaveArray(moves: seq<Option<Instance>>, max: Byte): (r: Option<seq<InstField>>)
    requires NoNullSlots(moves)
    ensures r.Some? ==> |r.value| >= 1 && r.value[0] == CountField(Min(|moves|, max))
  {
    var n := Min(|moves|, max);
    match SaveSlots(moves[..n])
    case None => None
    case Some(t) => Some([CountField(n)] + t)
  }

  /** TArray::SetNumZeroed: truncated, or padded with null slots. */
  function SetNumZeroed(s: seq<Option<Instance>>, n: nat): (r: seq<Option<Instance>>)
    ensures |r| == n
    ensures forall i :: 0 <= i < n && i < |s| ==> r[i] == s[i]
    ensures forall i :: |s| <= i < n ==> r[i].None?
  {
    if n <= |s| then s[..n] else s + seq(n - |s|, _ => None)
  }

  /** Loading slots i..n-1: each is replaced by a fresh instance and loaded; the first error stops the loop. */
  function LoadSlots(fs: seq<InstField>, arr: seq<Option<Instance>>, i: nat, n: nat): (r: Option<(seq<Option<Instance>>, seq<InstField>)>)
    requires i <= n == |arr|
    ensures r.Some? ==> |r.value.0| == n && r.value.0[..i] == arr[..i]
    ensures r.Some? ==> forall k :: i <= k < n ==> r.value.0[k].Some? && r.value.0[k].value.logic.None?
    decreases n - i
  {
    if i == n then Some((arr, fs))
    else
      match LoadInstance(fs)
      case None => None
      case Some((inst, rest)) =>
        var r := LoadSlots(rest, arr[i := Some(inst)], i + 1, n);
        if r.Some? then
          assert r.value.0[..i] == r.value.0[..i + 1][..i];
          assert arr[i := Some(inst)][..i] == arr[..i];
          assert r.value.0[i] == r.value.0[..i + 1][i];
          r
        else r
  }

  function LoadArray(fs: seq<InstField>, existing: seq<Option<Instance>>): (r: Option<(seq<Option<Instance>>, seq<InstField>)>)
    ensures r.Some? ==> |fs| >= 1 && fs[0].CountField? && |r.value.0| == fs[0].count
    ensures r.Some? ==> forall k :: 0 <= k < |r.value.0| ==> r.value.0[k].Some? && r.value.0[k].value.logic.None?
  {
    if |fs| == 0 || !fs[0].CountField? then None
    else LoadSlots(fs[1..], SetNumZeroed(existing, fs[0].count), 0, fs[0].count)
  }

  /**
   * Loading overwrites every slot it keeps: from slot i on, what the
   * receiving array held makes no difference to the outcome.
   */
  lemma {:induction false} LoadSlotsIgnoresReceiver(fs: seq<InstField>, a: seq<Option<Instance>>, b: seq<Option<Instance>>, i: nat, n: nat)
    requires i <= n == |a| == |b|
    ensures LoadSlots(fs, a, i, n).Some? <==> LoadSlots(fs, b, i, n).Some?
    ensures LoadSlots(fs, a, i, n).Some? ==>
      && LoadSlots(fs, a, i, n).value.1 == LoadSlots(fs, b, i, n).value.1
      && LoadSlots(fs, a, i, n).value.0[i..] == LoadSlots(fs, b, i, n).value.0[i..]
    decreases n - i
  {
    if i < n {
      match LoadInstance(fs)
      case None =>
      case Some((inst, rest)) =>
        LoadSlotsIgnoresReceiver(rest, a[i := Some(inst)], b[i := Some(inst)], i + 1, n);
        var ra := LoadSlots(rest, a[i := Some(inst)], i + 1, n);
        var rb := LoadSlots(rest, b[i := Some(inst)], i + 1, n);
        if ra.Some? {
          assert ra.value.0[i] == ra.value.0[..i + 1][i] == Some(inst);
          assert rb.value.0[i] == rb.value.0[..i + 1][i] == Some(inst);
          assert ra.value.0[i..] == [Some(inst)] + ra.value.0[i + 1..];
          assert rb.value.0[i..] == [Some(inst)] + rb.value.0[i + 1..];
        }
    }
  }

  /** The loaded array does not depend on what the receiving array held. */
  lemma LoadArrayIgnoresReceiver(fs: seq<InstField>, a: seq<Option<Instance>>, b: seq<Option<Instance>>)
    ensures LoadArray(fs, a) == LoadArray(fs, b)
  {
    if |fs| > 0 && fs[0].CountField? {
      var n := fs[0].count;
      LoadSlotsIgnoresReceiver(fs[1..], SetNumZeroed(a, n), SetNumZeroed(b, n), 0, n);
      var ra := LoadSlots(fs[1..], SetNumZeroed(a, n), 0, n);
      var rb := LoadSlots(fs[1..], SetNumZeroed(b, n), 0, n);
      if ra.Some? {
        assert ra.value.0 == ra.value.0[0..];
        assert rb.value.0 == rb.value.0[0..];
      }
    }
  }

  /** Every slot holds an instance with logic whose data type may be replicated. */
  predicate Replicable(moves: seq<Option<Instance>>)
  {
    forall i :: 0 <= i < |moves| ==> moves[i].Some? && moves[i].value.logic.Some? && DerivesFromData(moves[i].value.data.struct)
  }

  /** What an instance looks like after it crossed the wire, before its logic is bound. */
  function Received(inst: Instance): (r: Instance)
    requires inst.logic.Some?
    ensures r.data == inst.data && r.logic.None? && r.serializedClass == Some(inst.logic.value.logicClass)
  {
    Instance(inst.data, None, Some(inst.logic.value.logicClass))
  }

  lemma SaveSlotsUnfolds(moves: seq<Option<Instance>>, i: nat)
    requires i < |moves| && Replicable(moves)
    ensures SaveSlots(moves[i..]).Some? && SaveSlots(moves[i + 1..]).Some? && SaveInstance(moves[i].value).Some?
    ensures SaveSlots(moves[i..]).value == SaveInstance(moves[i].value).value + SaveSlots(moves[i + 1..]).value
  {
    assert moves[i..][0] == moves[i] && moves[i..][1..] == moves[i + 1..];
  }

  lemma {:induction false} LoadSavedSlots(moves: seq<Option<Instance>>, arr: seq<Option<Instance>>, i: nat, tail: seq<InstField>)
    requires i <= |moves| == |arr| && Replicable(moves)
    ensures SaveSlots(moves[i..]).Some?
    ensures var r := LoadSlots(SaveSlots(moves[i..]).value + tail, arr, i, |moves|);
      && r.Some? && r.value.1 == tail
      && forall k :: i <= k < |moves| ==> r.value.0[k] == Some(Received(moves[k].value))
    decreases |moves| - i
  {
    if i < |moves| {
      var inst := moves[i].value;
      SaveSlotsUnfolds(moves, i);
      var rest := SaveSlots(moves[i + 1..]).value;
      assert SaveSlots(moves[i..]).value + tail == SaveInstance(inst).value + (rest + tail);
      InstanceRoundTrip(inst, rest + tail);
      var arr' := arr[i := Some(Received(inst))];
      LoadSavedSlots(moves, arr', i + 1, tail);
      var r := LoadSlots(rest + tail, arr', i + 1, |moves|);
      assert r.value.0[i] == r.value.0[..i + 1][i] == Some(Received(inst));
    } else {
      assert moves[i..] == [];
    }
  }

  /** An array of at most `max` replicable instances arrives whole and in order, into any receiving array. */
  lemma ArrayRoundTrip(moves: seq<Option<Instance>>, max: Byte, existing: seq<Option<Instance>>, tail: seq<InstField>)
    requires |moves| <= max && Replicable(moves)
    ensures SaveArray(moves, max).Some?
    ensures var r := LoadArray(SaveArray(moves, max).value + tail, existing);
      && r.Some? && r.value.1 == tail && |r.value.0| == |moves|
      && forall k :: 0 <= k < |moves| ==> r.value.0[k] == Some(Received(moves[k].value))
  {
    assert moves[..|moves|] == moves[0..];
    var fs := SaveArray(moves, max).value + tail;
    assert fs[1..] == SaveSlots(moves[0..]).value + tail;
    LoadSavedSlots(moves, SetNumZeroed(existing, |moves|), 0, tail);
  }

  // ---------------------------------------------------------------------
  // The group
  // ---------------------------------------------------------------------

  /**
   * The queued array's budget: what is left of `max` after the active
   * array's own count, never negative. The sender passes its whole active
   * count and the receiver the count it just loaded; the budgets agree.
   */
  function QueuedBudget(numActive: nat, max: Byte): (r: Byte)
    ensures r == max - Min(numActive, max)
    ensures r == QueuedBudgetAfterLoad(Min(numActive, max), max)
  {
    if max - numActive > 0 then max - numActive else 0
  }

  /** The receiver's computation, from the active count it loaded. */
  function QueuedBudgetAfterLoad(loaded: nat, max: Byte): Byte
  {
    if max - loaded > 0 then max - loaded else 0
  }

  function SaveGroup(g: InstanceGroup, max: Byte): Option<seq<InstField>>
    requires NoNullSlots(g.active) && NoNullSlots(g.queued)
  {
    match SaveArray(g.active, max)
    case None => None
    case Some(fa) =>
      match SaveArray(g.queued, QueuedBudget(|g.active|, max))
      case None => None
      case Some(fq) => Some(fa + fq)
  }

  /** Loading a group: the active array, then the queued one; the residual and the requests are not on the wire. */
  function LoadGroup(fs: seq<InstField>, g: InstanceGroup): Option<(InstanceGroup, seq<InstField>)>
  {
    match LoadArray(fs, g.active)
    case None => None
    case Some((active, rest)) =>
      match LoadArray(rest, g.queued)
      case None => None
      case Some((queued, rest1)) => Some((g.(active := active, queued := queued), rest1))
  }

  /** The logic of every instance is the first registered logic of its class. */
  predicate RegisteredFirst(moves: seq<Option<Instance>>, registered: seq<Logic>)
    requires Replicable(moves)
  {
    forall i :: 0 <= i < |moves| ==> FirstWithClass(registered, moves[i].value.logic.value.logicClass) == moves[i].value.logic
  }

  /** Binding the logic of a received array restores every instance's data and logic. */
  lemma PopulateRestoresArray(loaded: seq<Option<Instance>>, moves: seq<Option<Instance>>, registered: seq<Logic>)
    requires Replicable(moves) && RegisteredFirst(moves, registered) && |loaded| == |moves|
    requires forall k :: 0 <= k < |moves| ==> loaded[k] == Some(Received(moves[k].value))
    ensures var p := PopulateAll(loaded, registered);
      && |p| == |moves|
      && forall k :: 0 <= k < |moves| ==> p[k].Some? && p[k].value.data == moves[k].value.data && p[k].value.logic == moves[k].value.logic
  {
  }

  /**
   * A group of at most `max` replicable instances crosses the wire into any
   * receiving group, and binding the logic afterwards restores every
   * instance's data and logic.
   */
  lemma GroupRoundTrip(g: InstanceGroup, max: Byte, receiver: InstanceGroup, registered: seq<Logic>)
    requires |g.active| + |g.queued| <= max && Replicable(g.active) && Replicable(g.queued)
    requires RegisteredFirst(g.active, registered) && RegisteredFirst(g.queued, registered)
    ensures SaveGroup(g, max).Some?
    ensures var r := LoadGroup(SaveGroup(g, max).value, receiver);
      && r.Some? && r.value.1 == []
      && var p := PopulateMissingActiveMoveLogic(r.value.0, registered);
      && |p.active| == |g.active| && |p.queued| == |g.queued|
      && (forall k :: 0 <= k < |g.active| ==> p.active[k].Some? && p.active[k].value.data == g.active[k].value.data && p.active[k].value.logic == g.active[k].value.logic)
      && (forall k :: 0 <= k < |g.queued| ==> p.queued[k].Some? && p.queued[k].value.data == g.queued[k].value.data && p.queued[k].value.logic == g.queued[k].value.logic)
  {
    var q := QueuedBudget(|g.active|, max);
    var fq := SaveArray(g.queued, q).value;
    ArrayRoundTrip(g.active, max, receiver.active, fq);
    ArrayRoundTrip(g.queued, q, receiver.queued, []);
    assert fq + [] == fq;
    var r := LoadGroup(SaveGroup(g, max).value, receiver).value.0;
    PopulateRestoresArray(r.active, g.active, registered);
    PopulateRestoresArray(r.queued, g.queued, registered);
  }
}
