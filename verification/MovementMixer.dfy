/**
 * UJoltMovementMixer: folds the proposed moves of layered moves into one
 * cumulative move, by mix mode and priority, and mixes proposed moves into
 * the move a movement mode wants to make.
 */
module MovementMixer {
  import opened Common
  import opened Conversions
  import opened MoverTypes

  /** The priority tracking the mixer keeps between layered moves. */
  datatype MixerState = MixerState(highestPriority: Byte, layeredMoveStartTimeMs: real)

  /** A freshly constructed mixer starts its tracked time at the float maximum. */
  const NEW_MIXER: MixerState := MixerState(0, FLT_MAX)

  /**
   * ResetMixerState: priority 0 and the double maximum as start time, so
   * that the next move with a positive priority or a finite start wins.
   */
  function ResetMixerState(m: MixerState): (r: MixerState)
    ensures r.highestPriority == 0
    ensures forall p: Byte, t: real :: p > 0 || t < DBL_MAX ==> CheckPriority(p, t, r).0
  {
    MixerState(0, DBL_MAX)
  }

  /** A layered move beats the tracked one: strictly higher priority, or equal priority and strictly earlier start. */
  predicate Beats(priority: Byte, startTimeMs: real, m: MixerState)
  {
    priority > m.highestPriority || (priority == m.highestPriority && startTimeMs < m.layeredMoveStartTimeMs)
  }

  /**
   * CheckPriority: accepts a move that beats the tracked one and then
   * tracks it; otherwise rejects and tracks nothing new.
   */
  function CheckPriority(priority: Byte, startTimeMs: real, m: MixerState): (r: (bool, MixerState))
    ensures r.0 <==> Beats(priority, startTimeMs, m)
    ensures r.0 ==> r.1 == MixerState(priority, startTimeMs)
    ensures !r.0 ==> r.1 == m
  {
    if priority > m.highestPriority then (true, MixerState(priority, startTimeMs))
    else if priority == m.highestPriority && startTimeMs < m.layeredMoveStartTimeMs then
      (true, m.(layeredMoveStartTimeMs := startTimeMs))
    else (false, m)
  }

  /** The same move never wins twice in a row, and the tracked priority never drops. */
  lemma CheckPriorityIsStrict(priority: Byte, startTimeMs: real, m: MixerState)
    ensures var r := CheckPriority(priority, startTimeMs, m);
      r.1.highestPriority >= m.highestPriority
      && !CheckPriority(priority, startTimeMs, r.1).0
  {
  }

  /**
   * The direction-intent step that opens MixLayeredMove: the step's intent
   * is taken when it has one, the cumulative move is not OverrideAll and the
   * move's priority is at least the tracked one.
   */
  function TakeIntent(priority: Byte, step: ProposedMove, cum: ProposedMove, m: MixerState): ProposedMove
  {
    if step.hasDirIntent && cum.mixMode != OverrideAll && priority >= m.highestPriority then
      cum.(hasDirIntent := step.hasDirIntent, directionIntent := step.directionIntent)
    else cum
  }

  /**
   * MixLayeredMove (both the layered-move and the move-instance overload,
   * which differ only in where priority and start time come from).
   */
  function MixLayeredMove(priority: Byte, startTimeMs: real, step: ProposedMove, cum: ProposedMove, m: MixerState): (r: (ProposedMove, MixerState))
    // An additive step adds both velocities unless the cumulative move already overrides velocity
    ensures step.mixMode == AdditiveVelocity ==>
      r.1 == m && r.0.mixMode == cum.mixMode
      && (OverridesVelocity(cum.mixMode) ==>
            r.0.linearVelocity == cum.linearVelocity && r.0.angularVelocityDegrees == cum.angularVelocityDegrees
            && r.0.preferredMode == cum.preferredMode)
      && (!OverridesVelocity(cum.mixMode) ==>
            r.0.linearVelocity == Add(cum.linearVelocity, step.linearVelocity)
            && r.0.angularVelocityDegrees == Add(cum.angularVelocityDegrees, step.angularVelocityDegrees))
    // An override step takes effect exactly when its move wins the priority check
    ensures step.mixMode != AdditiveVelocity ==>
      (Beats(priority, startTimeMs, m) ==> r.1 == MixerState(priority, startTimeMs))
      && (!Beats(priority, startTimeMs, m) ==>
            && r.1 == m
            && r.0.linearVelocity == cum.linearVelocity && r.0.angularVelocityDegrees == cum.angularVelocityDegrees
            && r.0.mixMode == cum.mixMode && r.0.preferredMode == cum.preferredMode)
    ensures step.mixMode == OverrideVelocity && Beats(priority, startTimeMs, m) ==>
      r.0.mixMode == OverrideVelocity
      && r.0.linearVelocity == step.linearVelocity && r.0.angularVelocityDegrees == step.angularVelocityDegrees
      && r.0.preferredMode == (if step.preferredMode != NAME_NONE && cum.mixMode != OverrideAll then step.preferredMode else cum.preferredMode)
    ensures step.mixMode == OverrideAll && Beats(priority, startTimeMs, m) ==> r.0 == step.(mixMode := OverrideAll)
    ensures step.mixMode == OverrideAllExceptVerticalVelocity && Beats(priority, startTimeMs, m) ==>
      r.0 == step.(mixMode := OverrideAllExceptVerticalVelocity)
    // Direction intent, unless the whole move was replaced
    ensures step.mixMode == AdditiveVelocity || step.mixMode == OverrideVelocity || !Beats(priority, startTimeMs, m) ==>
      if step.hasDirIntent && cum.mixMode != OverrideAll && priority >= m.highestPriority
      then r.0.hasDirIntent && r.0.directionIntent == step.directionIntent
      else r.0.hasDirIntent == cum.hasDirIntent && r.0.directionIntent == cum.directionIntent
  {
    var c := TakeIntent(priority, step, cum, m);
    match step.mixMode
    case OverrideVelocity =>
      var (ok, m') := CheckPriority(priority, startTimeMs, m);
      if !ok then (c, m')
      else
        var preferred := if step.preferredMode != NAME_NONE && c.mixMode != OverrideAll then step.preferredMode else c.preferredMode;
        (c.(preferredMode := preferred, mixMode := OverrideVelocity, linearVelocity := step.linearVelocity,
            angularVelocityDegrees := step.angularVelocityDegrees), m')
    case AdditiveVelocity =>
      if OverridesVelocity(c.mixMode) then (c, m)
      else
        var preferred := if step.preferredMode != NAME_NONE then step.preferredMode else c.preferredMode;
        (c.(preferredMode := preferred, linearVelocity := Add(c.linearVelocity, step.linearVelocity),
            angularVelocityDegrees := Add(c.angularVelocityDegrees, step.angularVelocityDegrees)), m)
    case OverrideAll =>
      var (ok, m') := CheckPriority(priority, startTimeMs, m);
      if ok then (step.(mixMode := OverrideAll), m') else (c, m')
    case OverrideAllExceptVerticalVelocity =>
      var (ok, m') := CheckPriority(priority, startTimeMs, m);
      if ok then (step.(mixMode := OverrideAllExceptVerticalVelocity), m') else (c, m')
  }

  /** Mixing a sequence of layered-move steps, in order. */
  function MixAll(steps: seq<(Byte, real, ProposedMove)>, cum: ProposedMove, m: MixerState): (r: (ProposedMove, MixerState))
    decreases |steps|
  {
    if |steps| == 0 then (cum, m)
    else
      var (c', m') := MixLayeredMove(steps[0].0, steps[0].1, steps[0].2, cum, m);
      MixAll(steps[1..], c', m')
  }

  /**
   * Once the cumulative move overrides velocity, additive steps can no
   * longer change its velocities: only an accepted override does.
   */
  lemma {:induction false} AdditiveStepsCannotMoveAnOverride(steps: seq<(Byte, real, ProposedMove)>, cum: ProposedMove, m: MixerState)
    requires OverridesVelocity(cum.mixMode)
    requires forall i :: 0 <= i < |steps| ==> steps[i].2.mixMode == AdditiveVelocity
    ensures var r := MixAll(steps, cum, m).0;
      r.linearVelocity == cum.linearVelocity && r.angularVelocityDegrees == cum.angularVelocityDegrees
      && r.mixMode == cum.mixMode
    decreases |steps|
  {
    if |steps| > 0 {
      var (c', m') := MixLayeredMove(steps[0].0, steps[0].1, steps[0].2, cum, m);
      assert forall i :: 0 <= i < |steps[1..]| ==> steps[1..][i] == steps[i + 1];
      AdditiveStepsCannotMoveAnOverride(steps[1..], c', m');
    }
  }

  /**
   * The tracked priority after mixing is the highest priority among the
   * accepted overrides and the one tracked before: it never decreases and
   * never exceeds the largest priority seen.
   */
  lemma {:induction false} TrackedPriorityIsMaximum(steps: seq<(Byte, real, ProposedMove)>, cum: ProposedMove, m: MixerState)
    ensures var m' := MixAll(steps, cum, m).1;
      m'.highestPriority >= m.highestPriority
      && (m'.highestPriority == m.highestPriority || exists i :: 0 <= i < |steps| && steps[i].0 == m'.highestPriority)
      && forall i :: 0 <= i < |steps| && steps[i].2.mixMode != AdditiveVelocity ==> steps[i].0 <= m'.highestPriority
    decreases |steps|
  {
    if |steps| > 0 {
      var (c', m1) := MixLayeredMove(steps[0].0, steps[0].1, steps[0].2, cum, m);
      var tail := steps[1..];
      TrackedPriorityIsMaximum(tail, c', m1);
      var m' := MixAll(steps, cum, m).1;
      assert m' == MixAll(tail, c', m1).1;
      assert forall i :: 0 <= i < |tail| ==> tail[i] == steps[i + 1];
      if m'.highestPriority != m.highestPriority && m'.highestPriority != m1.highestPriority {
        var i :| 0 <= i < |tail| && tail[i].0 == m'.highestPriority;
        assert steps[i + 1].0 == m'.highestPriority;
      }
      forall i | 0 <= i < |steps| && steps[i].2.mixMode != AdditiveVelocity
        ensures steps[i].0 <= m'.highestPriority
      {
        if i > 0 {
          assert tail[i - 1] == steps[i];
        }
      }
    }
  }

  /**
   * MixProposedMoves: how the mode's proposed move absorbs the mixed
   * layered move. `up` is the up direction used to split off the vertical
   * part in OverrideAllExceptVerticalVelocity.
   */
  function MixProposedMoves(move: ProposedMove, up: Vec3, cum: ProposedMove): (r: ProposedMove)
    ensures move.mixMode == OverrideAll ==> r == move
    ensures move.mixMode == AdditiveVelocity ==>
      r.linearVelocity == Add(cum.linearVelocity, move.linearVelocity)
      && r.angularVelocityDegrees == Add(cum.angularVelocityDegrees, move.angularVelocityDegrees)
      && r.mixMode == cum.mixMode && r.preferredMode == cum.preferredMode
    ensures move.mixMode == OverrideVelocity ==>
      r.linearVelocity == move.linearVelocity && r.angularVelocityDegrees == move.angularVelocityDegrees
      && r.mixMode == cum.mixMode && r.preferredMode == cum.preferredMode
    ensures move.mixMode == OverrideAllExceptVerticalVelocity ==>
      r.mixMode == move.mixMode && r.angularVelocityDegrees == move.angularVelocityDegrees
      && r.preferredMode == move.preferredMode
    ensures move.mixMode == AdditiveVelocity || move.mixMode == OverrideVelocity ==>
      if move.hasDirIntent && cum.mixMode != OverrideAll
      then r.hasDirIntent && r.directionIntent == move.directionIntent
      else r.hasDirIntent == cum.hasDirIntent && r.directionIntent == cum.directionIntent
  {
    var c :=
      if move.hasDirIntent && cum.mixMode != OverrideAll then
        cum.(hasDirIntent := move.hasDirIntent, directionIntent := move.directionIntent)
      else cum;
    match move.mixMode
    case OverrideAll => move
    case AdditiveVelocity =>
      c.(linearVelocity := Add(c.linearVelocity, move.linearVelocity),
         angularVelocityDegrees := Add(c.angularVelocityDegrees, move.angularVelocityDegrees))
    case OverrideVelocity =>
      c.(linearVelocity := move.linearVelocity, angularVelocityDegrees := move.angularVelocityDegrees)
    case OverrideAllExceptVerticalVelocity =>
      var incomingVertical := ProjectOnToNormal(move.linearVelocity, up);
      var incomingNonVertical := Sub(move.linearVelocity, incomingVertical);
      var existingVertical := ProjectOnToNormal(c.linearVelocity, up);
      move.(linearVelocity := Add(incomingNonVertical, existingVertical))
  }

  lemma DotScale(v: Vec3, n: Vec3, k: real)
    ensures Dot(Scale(n, k), n) == k * Dot(n, n)
    ensures Dot(Add(v, Scale(n, k)), n) == Dot(v, n) + k * Dot(n, n)
    ensures Dot(Sub(v, Scale(n, k)), n) == Dot(v, n) - k * Dot(n, n)
  {
    var w := Scale(n, k);
    assert w.x * n.x == k * (n.x * n.x);
    assert w.y * n.y == k * (n.y * n.y);
    assert w.z * n.z == k * (n.z * n.z);
    assert Dot(w, n) == k * Dot(n, n);
  }

  /**
   * With a unit up direction, OverrideAllExceptVerticalVelocity keeps the
   * existing vertical velocity and takes the incoming move's horizontal
   * velocity: the result's vertical part is the existing one, and what is
   * left is the incoming move's non-vertical part.
   */
  lemma OverrideExceptVerticalKeepsVertical(move: ProposedMove, up: Vec3, cum: ProposedMove)
    requires move.mixMode == OverrideAllExceptVerticalVelocity
    requires Dot(up, up) == 1.0
    ensures var r := MixProposedMoves(move, up, cum);
      ProjectOnToNormal(r.linearVelocity, up) == ProjectOnToNormal(cum.linearVelocity, up)
      && Sub(r.linearVelocity, ProjectOnToNormal(r.linearVelocity, up))
         == Sub(move.linearVelocity, ProjectOnToNormal(move.linearVelocity, up))
  {
    var c :=
      if move.hasDirIntent && cum.mixMode != OverrideAll then
        cum.(hasDirIntent := move.hasDirIntent, directionIntent := move.directionIntent)
      else cum;
    assert c.linearVelocity == cum.linearVelocity;
    var a := Dot(move.linearVelocity, up);
    var b := Dot(cum.linearVelocity, up);
    var nonVertical := Sub(move.linearVelocity, Scale(up, a));
    DotScale(move.linearVelocity, up, a);
    assert Dot(nonVertical, up) == 0.0;
    var lin := Add(nonVertical, Scale(up, b));
    DotScale(nonVertical, up, b);
    assert Dot(lin, up) == b;
  }
}
