/**
 * Scheduled instant movement effects: an instant effect carries the
 * server frame (fixed time step) or the server time (variable time step)
 * at which it becomes due. The effect itself is an opaque value.
 */
module ScheduledEffects {
  import opened Common

  /** FJoltScheduledInstantMovementEffect. */
  datatype Scheduled<E> = Scheduled(executionFrame: int, executionTimeSecs: real, isFixedDt: bool, effect: E)

  /** ShouldExecuteAtFrame: the execution frame has been reached. */
  predicate ShouldExecuteAtFrame<E>(s: Scheduled<E>, currentFrame: int)
  {
    currentFrame >= s.executionFrame
  }

  /** ShouldExecuteAtTime: the execution time has been reached. */
  predicate ShouldExecuteAtTime<E>(s: Scheduled<E>, currentTimeSecs: real)
  {
    currentTimeSecs >= s.executionTimeSecs
  }

  /** The test the state machine applies: by frame in fixed-dt mode, by time otherwise. */
  predicate Due<E>(s: Scheduled<E>, currentFrame: int, currentTimeSecs: real)
  {
    if s.isFixedDt then ShouldExecuteAtFrame(s, currentFrame) else ShouldExecuteAtTime(s, currentTimeSecs)
  }

  /** What ScheduleEffect learns from the physics solver, when there is one. */
  datatype SolverInfo = SolverInfo(usesFixedDt: bool, asyncDeltaSecs: real)

  /** The number of whole solver steps that cover the delay (zero for a degenerate step). */
  function DelayFrames(delaySecs: real, deltaSecs: real): (n: int)
    ensures deltaSecs > SMALL_NUMBER ==> (n - 1) as real * deltaSecs < delaySecs <= n as real * deltaSecs
    ensures deltaSecs <= SMALL_NUMBER ==> n == 0
  {
    if deltaSecs > SMALL_NUMBER then
      var n := Ceil(delaySecs / deltaSecs);
      CeilScaled(delaySecs, deltaSecs, n);
      n
    else 0
  }

  lemma CeilScaled(x: real, d: real, n: int)
    requires d > 0.0 && n == Ceil(x / d)
    ensures (n - 1) as real * d < x
    ensures x <= n as real * d
  {
    var q := x / d;
    assert q * d == x;
    MulLess((n - 1) as real, q, d);
    MulLessEq(q, n as real, d);
  }

  lemma MulLess(u: real, v: real, d: real)
    requires u < v && d > 0.0
    ensures u * d < v * d
  {
    assert v * d - u * d == (v - u) * d;
  }

  lemma MulLessEq(u: real, v: real, d: real)
    requires u <= v && d > 0.0
    ensures u * d <= v * d
  {
    assert v * d - u * d == (v - u) * d;
  }

  /**
   * ScheduleEffect. Without a world, scene or solver the time step counts
   * as variable; without a game state the server time is 0. `serverTimeSecs`
   * is that game-state time when there is one.
   */
  function ScheduleEffect<E>(solver: Option<SolverInfo>, serverTimeSecs: Option<real>, serverFrame: int,
                             effect: E, delaySecs: real): (r: Scheduled<E>)
    ensures r.effect == effect
    ensures r.isFixedDt <==> solver.Some? && solver.value.usesFixedDt
    ensures r.isFixedDt ==> r.executionTimeSecs == 0.0
    ensures r.isFixedDt && (delaySecs == 0.0 || solver.value.asyncDeltaSecs <= SMALL_NUMBER) ==>
      r.executionFrame == serverFrame
    ensures !r.isFixedDt ==>
      r.executionFrame == INDEX_NONE && r.executionTimeSecs == serverTimeSecs.GetOr(0.0) + delaySecs
  {
    if solver.Some? && solver.value.usesFixedDt then
      var frames := if delaySecs != 0.0 then DelayFrames(delaySecs, solver.value.asyncDeltaSecs) else 0;
      Scheduled(serverFrame + frames, 0.0, true, effect)
    else
      Scheduled(INDEX_NONE, serverTimeSecs.GetOr(0.0) + delaySecs, false, effect)
  }

  /**
   * With a fixed step, the scheduled effect becomes due at exactly the
   * frames whose elapsed solver time since scheduling covers the delay.
   */
  lemma FixedEffectDueOnceDelayElapsed<E>(info: SolverInfo, serverTimeSecs: Option<real>, serverFrame: int,
                                          effect: E, delaySecs: real, frame: int)
    requires info.usesFixedDt && info.asyncDeltaSecs > SMALL_NUMBER
    ensures Due(ScheduleEffect(Some(info), serverTimeSecs, serverFrame, effect, delaySecs), frame, 0.0)
      <==> (frame - serverFrame) as real * info.asyncDeltaSecs >= delaySecs
  {
    var d := info.asyncDeltaSecs;
    var n := if delaySecs != 0.0 then DelayFrames(delaySecs, d) else 0;
    assert ScheduleEffect(Some(info), serverTimeSecs, serverFrame, effect, delaySecs).executionFrame == serverFrame + n;
    if delaySecs == 0.0 {
      assert (n - 1) as real * d == -d;
    }
    StepsCoverDelay(frame - serverFrame, n, d, delaySecs);
  }

  /** With the delay bracketed by n - 1 and n steps, k steps cover it exactly when k >= n. */
  lemma StepsCoverDelay(k: int, n: int, d: real, delaySecs: real)
    requires d > 0.0 && (n - 1) as real * d < delaySecs <= n as real * d
    ensures k >= n <==> k as real * d >= delaySecs
  {
    if k >= n {
      assert n as real <= k as real;
      MulLessEq(n as real, k as real, d);
      assert k as real * d >= delaySecs;
    } else {
      assert k as real <= (n - 1) as real;
      MulLessEq(k as real, (n - 1) as real, d);
      assert k as real * d < delaySecs;
    }
  }

  /** With a variable step, the effect becomes due once the delay has elapsed on the server clock. */
  lemma VariableEffectDueOnceDelayElapsed<E>(solver: Option<SolverInfo>, serverTimeSecs: real, serverFrame: int,
                                             effect: E, delaySecs: real, now: real)
    requires solver.None? || !solver.value.usesFixedDt
    ensures Due(ScheduleEffect(solver, Some(serverTimeSecs), serverFrame, effect, delaySecs), 0, now)
      <==> now - serverTimeSecs >= delaySecs
  {
  }
}
