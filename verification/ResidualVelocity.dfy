/**
 * The residual velocity a layered-move group gathers from the moves that
 * finish during one flush of its move arrays: a velocity to set (added up
 * by additive moves, replaced by overriding ones), a clamp (the smallest
 * additive clamp, or the overriding one; negative means none) and whether
 * the velocity is to be applied at all.
 */
module ResidualVelocity {
  import opened Common
  import opened Conversions
  import opened MoverTypes

  datatype Residual = Residual(velocity: Vec3, clamping: real, apply: bool)

  /** ResetResidualVelocity, and the state both groups are constructed with. */
  const NO_RESIDUAL: Residual := Residual(ZERO_VECTOR, -1.0, false)

  /** Whether an overriding move has already set the velocity or the clamp during the current flush. */
  datatype Overrides = Overrides(velocity: bool, clamp: bool)

  const NO_OVERRIDES: Overrides := Overrides(false, false)

  /** What a finishing move contributes: its mix mode and its finish-velocity settings. */
  datatype Ending = Ending(mixMode: MixMode, finish: FinishVelocitySettings)

  predicate SetsVelocity(e: Ending) { e.finish.mode == SetVelocity }
  predicate ClampsVelocity(e: Ending) { e.finish.mode == ClampVelocity }
  predicate OverridesResidual(e: Ending) { SetsVelocity(e) && OverridesVelocity(e.mixMode) }
  predicate AddsResidual(e: Ending) { SetsVelocity(e) && e.mixMode == AdditiveVelocity }
  predicate OverridesClamp(e: Ending) { ClampsVelocity(e) && OverridesVelocity(e.mixMode) }
  predicate AddsClamp(e: Ending) { ClampsVelocity(e) && e.mixMode == AdditiveVelocity }

  /**
   * ProcessFinishedMove (move-instance group): additive velocities add up
   * until an override has set the velocity; an override replaces it. An
   * additive clamp lowers the clamp (or sets it when there is none) until an
   * override has set it; an override replaces it. Other mix modes leave
   * both alone. Any SetVelocity move turns the apply flag on.
   */
  function ProcessFinishedMove(e: Ending, s: (Residual, Overrides)): (Residual, Overrides)
  {
    var (res, o) := s;
    var f := e.finish;
    match f.mode
    case SetVelocity =>
      var res1 := res.(apply := true);
      if e.mixMode == AdditiveVelocity then
        if o.velocity then (res1, o) else (res1.(velocity := Add(res.velocity, f.setVelocity)), o)
      else if OverridesVelocity(e.mixMode) then (res1.(velocity := f.setVelocity), o.(velocity := true))
      else (res1, o)
    case ClampVelocity =>
      if e.mixMode == AdditiveVelocity then
        if !o.clamp && (res.clamping < 0.0 || res.clamping > f.clampVelocity) then (res.(clamping := f.clampVelocity), o)
        else (res, o)
      else if OverridesVelocity(e.mixMode) then (res.(clamping := f.clampVelocity), o.(clamp := true))
      else (res, o)
    case MaintainLastRootMotionVelocity => s
  }

  /** The moves ending in one flush, in the order they end. */
  function ProcessAll(es: seq<Ending>, s: (Residual, Overrides)): (Residual, Overrides)
    decreases |es|
  {
    if |es| == 0 then s else ProcessFinishedMove(es[|es| - 1], ProcessAll(es[..|es| - 1], s))
  }

  /** The sum of the additive SetVelocity contributions. */
  function AdditiveSum(es: seq<Ending>): Vec3
    decreases |es|
  {
    if |es| == 0 then ZERO_VECTOR
    else
      var rest := AdditiveSum(es[..|es| - 1]);
      if AddsResidual(es[|es| - 1]) then Add(rest, es[|es| - 1].finish.setVelocity) else rest
  }

  /** After processing, an override flag is up exactly when it was, or some move of that kind overrode. */
  lemma {:induction false} FlagsRecordOverrides(es: seq<Ending>, s: (Residual, Overrides))
    ensures var r := ProcessAll(es, s);
      && (r.1.velocity <==> s.1.velocity || exists i :: 0 <= i < |es| && OverridesResidual(es[i]))
      && (r.1.clamp <==> s.1.clamp || exists i :: 0 <= i < |es| && OverridesClamp(es[i]))
      && (r.0.apply <==> s.0.apply || exists i :: 0 <= i < |es| && SetsVelocity(es[i]))
    decreases |es|
  {
    if |es| > 0 {
      var init := es[..|es| - 1];
      FlagsRecordOverrides(init, s);
      assert forall i :: 0 <= i < |init| ==> init[i] == es[i];
    }
  }

  /** Without any override, the residual velocity is the starting one plus every additive contribution. */
  lemma {:induction false} VelocityWithoutOverride(es: seq<Ending>, s: (Residual, Overrides))
    requires !s.1.velocity
    requires forall i :: 0 <= i < |es| ==> !OverridesResidual(es[i])
    ensures ProcessAll(es, s).0.velocity == Add(s.0.velocity, AdditiveSum(es))
    decreases |es|
  {
    if |es| > 0 {
      var init := es[..|es| - 1];
      assert forall i :: 0 <= i < |init| ==> init[i] == es[i];
      VelocityWithoutOverride(init, s);
      FlagsRecordOverrides(init, s);
    }
  }

  /** The residual velocity is the one set by the last overriding move, whatever came after it. */
  lemma {:induction false} LastOverrideWins(es: seq<Ending>, s: (Residual, Overrides), k: nat)
    requires k < |es| && OverridesResidual(es[k])
    requires forall j :: k < j < |es| ==> !OverridesResidual(es[j])
    ensures ProcessAll(es, s).0.velocity == es[k].finish.setVelocity
    decreases |es|
  {
    var init := es[..|es| - 1];
    assert forall i :: 0 <= i < |init| ==> init[i] == es[i];
    if k < |es| - 1 {
      LastOverrideWins(init, s, k);
      FlagsRecordOverrides(init, s);
      assert OverridesResidual(init[k]);
    }
  }

  /**
   * Without a clamp override and with non-negative clamps, the clamp kept
   * is the smallest of the starting clamp (when set) and the additive ones.
   */
  lemma {:induction false} AdditiveClampKeepsMinimum(es: seq<Ending>, s: (Residual, Overrides))
    requires !s.1.clamp
    requires forall i :: 0 <= i < |es| ==> !OverridesClamp(es[i])
    requires forall i :: 0 <= i < |es| && AddsClamp(es[i]) ==> es[i].finish.clampVelocity >= 0.0
    ensures var c := ProcessAll(es, s).0.clamping;
      && (forall i :: 0 <= i < |es| && AddsClamp(es[i]) ==> c <= es[i].finish.clampVelocity)
      && (s.0.clamping >= 0.0 ==> c <= s.0.clamping)
      && (c == s.0.clamping || exists i :: 0 <= i < |es| && AddsClamp(es[i]) && c == es[i].finish.clampVelocity)
      && (c < 0.0 ==> c == s.0.clamping && forall i :: 0 <= i < |es| ==> !AddsClamp(es[i]))
    decreases |es|
  {
    if |es| > 0 {
      var init := es[..|es| - 1];
      assert forall i :: 0 <= i < |init| ==> init[i] == es[i];
      AdditiveClampKeepsMinimum(init, s);
      FlagsRecordOverrides(init, s);
      var c0 := ProcessAll(init, s).0.clamping;
      assert c0 >= 0.0 ==> (c0 == s.0.clamping || exists i :: 0 <= i < |init| && AddsClamp(init[i]) && c0 == init[i].finish.clampVelocity);
    }
  }

  /** The clamp is the one set by the last overriding clamp move, whatever came after it. */
  lemma {:induction false} LastClampOverrideWins(es: seq<Ending>, s: (Residual, Overrides), k: nat)
    requires k < |es| && OverridesClamp(es[k])
    requires forall j :: k < j < |es| ==> !OverridesClamp(es[j])
    ensures ProcessAll(es, s).0.clamping == es[k].finish.clampVelocity
    decreases |es|
  {
    var init := es[..|es| - 1];
    assert forall i :: 0 <= i < |init| ==> init[i] == es[i];
    if k < |es| - 1 {
      LastClampOverrideWins(init, s, k);
      FlagsRecordOverrides(init, s);
      assert OverridesClamp(init[k]);
    }
  }

  /**
   * ApplyResidualVelocity (move-instance group): the residual velocity
   * replaces the proposed one when it is to be applied, a non-negative
   * clamp then limits it (`clampToMaxSize` is FVector::GetClampedToMaxSize),
   * and the residual state is reset.
   */
  function ApplyResidualVelocity(res: Residual, move: ProposedMove, clampToMaxSize: (Vec3, real) -> Vec3): (r: (ProposedMove, Residual))
    ensures r.1 == NO_RESIDUAL
    ensures r.0 == move.(linearVelocity := r.0.linearVelocity)
    ensures !res.apply && res.clamping < 0.0 ==> r.0 == move
    ensures res.apply && res.clamping < 0.0 ==> r.0.linearVelocity == res.velocity
  {
    var v := if res.apply then res.velocity else move.linearVelocity;
    var clamped := if res.clamping >= 0.0 then clampToMaxSize(v, res.clamping) else v;
    (move.(linearVelocity := clamped), NO_RESIDUAL)
  }

  // ---------------------------------------------------------------------
  // The older layered-move group's GatherResidualVelocitySettings
  // ---------------------------------------------------------------------

  /**
   * GatherResidualVelocitySettings for FJoltLayeredMoveGroup:
   * the same contributions, except that an additive move after an override
   * of the same kind, and any OverrideAllExceptVerticalVelocity move, fall
   * through to check(0). None is that failed check.
   */
  function GatherAsWritten(e: Ending, s: (Residual, Overrides)): (r: Option<(Residual, Overrides)>)
    ensures r.None? <==> ReachesCheck(e, s.1)
    ensures r.Some? ==> r.value == ProcessFinishedMove(e, s)
  {
    var (res, o) := s;
    var f := e.finish;
    match f.mode
    case SetVelocity =>
      var res1 := res.(apply := true);
      if e.mixMode == OverrideVelocity then Some((res1.(velocity := f.setVelocity), o.(velocity := true)))
      else if e.mixMode == AdditiveVelocity && !o.velocity then Some((res1.(velocity := Add(res.velocity, f.setVelocity)), o))
      else if e.mixMode == OverrideAll then Some((res1.(velocity := f.setVelocity), o.(velocity := true)))
      else None
    case ClampVelocity =>
      if e.mixMode == OverrideVelocity then Some((res.(clamping := f.clampVelocity), o.(clamp := true)))
      else if e.mixMode == AdditiveVelocity && !o.clamp then
        if res.clamping < 0.0 || res.clamping > f.clampVelocity then Some((res.(clamping := f.clampVelocity), o))
        else Some(s)
      else if e.mixMode == OverrideAll then Some((res.(clamping := f.clampVelocity), o.(clamp := true)))
      else None
    case MaintainLastRootMotionVelocity => Some(s)
  }

  /** The check a move reaches in the older group, given the override flags so far. */
  predicate ReachesCheck(e: Ending, o: Overrides)
  {
    (SetsVelocity(e) && (e.mixMode == OverrideAllExceptVerticalVelocity || (e.mixMode == AdditiveVelocity && o.velocity)))
    || (ClampsVelocity(e) && (e.mixMode == OverrideAllExceptVerticalVelocity || (e.mixMode == AdditiveVelocity && o.clamp)))
  }

  function GatherAllAsWritten(es: seq<Ending>, s: (Residual, Overrides)): Option<(Residual, Overrides)>
    decreases |es|
  {
    if |es| == 0 then Some(s)
    else
      match GatherAllAsWritten(es[..|es| - 1], s)
      case None => None
      case Some(t) => GatherAsWritten(es[|es| - 1], t)
  }

  /** Whenever the older group's flush survives its checks, it ends in the newer group's residual state. */
  lemma {:induction false} GatherAllAgreesUnlessChecked(es: seq<Ending>, s: (Residual, Overrides))
    ensures GatherAllAsWritten(es, s).Some? ==> GatherAllAsWritten(es, s).value == ProcessAll(es, s)
    decreases |es|
  {
    if |es| > 0 {
      GatherAllAgreesUnlessChecked(es[..|es| - 1], s);
      var t := GatherAllAsWritten(es[..|es| - 1], s);
    }
  }

  /** A flush in which only additive moves end never reaches the check. */
  lemma {:induction false} AdditiveEndingsNeverCheck(es: seq<Ending>, s: (Residual, Overrides))
    requires !s.1.velocity && !s.1.clamp
    requires forall i :: 0 <= i < |es| ==> es[i].mixMode == AdditiveVelocity
    ensures GatherAllAsWritten(es, s) == Some(ProcessAll(es, s))
    decreases |es|
  {
    if |es| > 0 {
      var init := es[..|es| - 1];
      assert forall i :: 0 <= i < |init| ==> init[i] == es[i];
      AdditiveEndingsNeverCheck(init, s);
      FlagsRecordOverrides(init, s);
    }
  }

  /**
   * An overriding SetVelocity move followed, in the same flush, by an
   * additive one stops the older group on its check, while the newer group
   * keeps the override's velocity.
   */
  lemma AdditiveAfterOverrideReachesCheck(v1: Vec3, v2: Vec3)
    ensures var es := [Ending(OverrideVelocity, FinishVelocitySettings(SetVelocity, v1, 0.0)),
                       Ending(AdditiveVelocity, FinishVelocitySettings(SetVelocity, v2, 0.0))];
      GatherAllAsWritten(es, (NO_RESIDUAL, NO_OVERRIDES)).None?
      && ProcessAll(es, (NO_RESIDUAL, NO_OVERRIDES)).0 == Residual(v1, -1.0, true)
  {
    var es := [Ending(OverrideVelocity, FinishVelocitySettings(SetVelocity, v1, 0.0)),
               Ending(AdditiveVelocity, FinishVelocitySettings(SetVelocity, v2, 0.0))];
    var s0 := (NO_RESIDUAL, NO_OVERRIDES);
    assert es[..1] == [es[0]] && es[..1][..0] == [];
    assert ProcessAll(es[..1], s0) == ProcessFinishedMove(es[0], s0);
    assert GatherAllAsWritten(es[..1], s0) == GatherAsWritten(es[0], s0);
  }
}
