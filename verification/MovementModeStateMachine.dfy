/**
 * The movement mode state machine of a mover: the registered modes, the
 * current and default mode, the one queued mode transition, the queues
 * that feed the next substep, the time accounting of the substep loop
 * and the application of scheduled instant effects.
 *
 * Mode objects, their callbacks and the mover component are not part of
 * the model: a mode is its name, and activation, deactivation and the
 * mode-change notification are recorded in a log.
 */
module MovementModeStateMachine {
  import opened Common
  import opened ScheduledEffects
  import opened MoverTypes

  /** UJoltNullMovementMode::NullModeName. */
  const NULL_MODE: string := "Null"

  /** The queued transition (UJoltImmediateMovementModeTransition): next mode and reentry flag. */
  datatype Transition = Transition(nextMode: string, reenter: bool) {
    predicate IsSet() {
      nextMode != NAME_NONE
    }
  }

  /** Transition::Clear. */
  const CLEARED: Transition := Transition(NAME_NONE, false)

  /** What a mode switch does to the outside world, in order. */
  datatype ModeEvent =
    | Deactivated(mode: string)
    | ChangeRecorded(prev: string, next: string)   // the last-mode-change record offered to the rollback blackboard
    | Activated(mode: string)
    | ChangeBroadcast(prev: string, next: string)  // OnMovementModeChanged

  /** An instant effect, by identity; what it does is not modelled. */
  type EffectId = nat

  /**
   * UJoltMovementModeStateMachine. The queued layered moves, move
   * instances, modifiers and instant effects are opaque handles; instant
   * effects carry their schedule.
   */
  datatype Fsm = Fsm(
    modes: set<string>,
    current: string,
    default: string,
    queued: Transition,
    queuedMoves: seq<nat>,
    queuedMoveInstances: seq<nat>,
    queuedEffects: seq<Scheduled<EffectId>>,
    queuedModifiers: seq<nat>,
    log: seq<ModeEvent>)

  /** Only the mode bookkeeping differs: the queues and the log are the same. */
  predicate SameQueues(f: Fsm, g: Fsm)
  {
    f.queuedMoves == g.queuedMoves && f.queuedMoveInstances == g.queuedMoveInstances
    && f.queuedEffects == g.queuedEffects && f.queuedModifiers == g.queuedModifiers
  }

  /** A name that denotes a registered mode (FindMovementMode / GetCurrentMode succeed). */
  predicate IsRegistered(f: Fsm, name: string)
  {
    name != NAME_NONE && name in f.modes
  }

  /** RegisterMovementMode: adds or replaces the mode; a default registration also makes it the default. */
  function RegisterMovementMode(f: Fsm, name: string, isDefault: bool): (r: Fsm)
    ensures r.modes == f.modes + {name}
    ensures r.default == (if isDefault then name else f.default)
    ensures r.current == f.current && r.queued == f.queued && r.log == f.log && SameQueues(f, r)
  {
    f.(modes := f.modes + {name}, default := if isDefault then name else f.default)
  }

  /** UnregisterMovementMode: the mode must be registered (FindAndRemoveChecked). */
  function UnregisterMovementMode(f: Fsm, name: string): (r: Fsm)
    requires name in f.modes
    ensures r.modes == f.modes - {name} && name !in r.modes
    ensures r.current == f.current && r.default == f.default && r.queued == f.queued && SameQueues(f, r)
  {
    f.(modes := f.modes - {name})
  }

  /** SetDefaultMode: the new default must be registered (a checked precondition). */
  function SetDefaultMode(f: Fsm, name: string): (r: Fsm)
    requires name in f.modes
    ensures r.default == name && r.default in r.modes
    ensures r.modes == f.modes && r.current == f.current && r.queued == f.queued && SameQueues(f, r)
  {
    f.(default := name)
  }

  /** ClearQueuedMode. */
  function ClearQueuedMode(f: Fsm): (r: Fsm)
    ensures !r.queued.IsSet() && !r.queued.reenter
    ensures r.modes == f.modes && r.current == f.current && r.default == f.default && SameQueues(f, r)
  {
    f.(queued := CLEARED)
  }

  /**
   * ConstructDefaultModes: registers the Null mode as default, then
   * resets the default to None, makes Null current and clears the queue.
   */
  function ConstructDefaultModes(f: Fsm): (r: Fsm)
    ensures r.modes == f.modes + {NULL_MODE}
    ensures r.current == NULL_MODE && IsRegistered(r, r.current)
    ensures r.default == NAME_NONE
    ensures !r.queued.IsSet()
    ensures r.log == f.log && SameQueues(f, r)
  {
    var registered := RegisterMovementMode(f, NULL_MODE, true);
    ClearQueuedMode(registered.(default := NAME_NONE, current := NULL_MODE))
  }

  /**
   * ClearAllMovementModes: deactivates the current mode when it is
   * registered, forgets every mode and constructs the defaults again.
   */
  function ClearAllMovementModes(f: Fsm): (r: Fsm)
    ensures r.modes == {NULL_MODE}
    ensures r.current == NULL_MODE && r.default == NAME_NONE && !r.queued.IsSet()
    ensures r.log == f.log + (if f.current in f.modes then [Deactivated(f.current)] else [])
    ensures SameQueues(f, r)
  {
    var deactivated := if f.current in f.modes then f.(log := f.log + [Deactivated(f.current)]) else f;
    ConstructDefaultModes(deactivated.(modes := {}))
  }

  /**
   * QueueNextMode: a None name is ignored, and so is a name that is not
   * registered; otherwise the queued transition is overwritten.
   */
  function QueueNextMode(f: Fsm, desired: string, reenter: bool): (r: Fsm)
    ensures IsRegistered(f, desired) ==> r.queued == Transition(desired, reenter)
    ensures !IsRegistered(f, desired) ==> r.queued == f.queued
    ensures r.modes == f.modes && r.current == f.current && r.default == f.default
    ensures r.log == f.log && SameQueues(f, r)
  {
    if desired != NAME_NONE && desired in f.modes then f.(queued := Transition(desired, reenter)) else f
  }

  /** The switch AdvanceToNextMode performs: a registered target that differs or may be reentered. */
  predicate SwitchesTo(f: Fsm, t: Transition)
  {
    IsRegistered(f, t.nextMode) && (f.current != t.nextMode || t.reenter)
  }

  /**
   * AdvanceToNextMode: always clears the queue; on a switch deactivates
   * the previous mode when it is registered, records the change, activates
   * the new mode and then announces the change.
   */
  function AdvanceToNextMode(f: Fsm): (r: Fsm)
    ensures !r.queued.IsSet()
    ensures r.current == (if SwitchesTo(f, f.queued) then f.queued.nextMode else f.current)
    ensures !SwitchesTo(f, f.queued) ==> r.log == f.log
    ensures SwitchesTo(f, f.queued) ==>
      r.log == f.log + (if IsRegistered(f, f.current) then [Deactivated(f.current)] else [])
                     + [ChangeRecorded(f.current, f.queued.nextMode), Activated(f.queued.nextMode),
                        ChangeBroadcast(f.current, f.queued.nextMode)]
    ensures r.modes == f.modes && r.default == f.default && SameQueues(f, r)
  {
    var next := f.queued;
    var cleared := ClearQueuedMode(f);
    if SwitchesTo(f, next) then
      var prev := f.current;
      var deactivations := if IsRegistered(f, prev) then [Deactivated(prev)] else [];
      cleared.(current := next.nextMode, log := f.log + deactivations + [ChangeRecorded(prev, next.nextMode), Activated(next.nextMode),
                                                               ChangeBroadcast(prev, next.nextMode)])
    else cleared
  }

  /** SetModeImmediately: queue, then advance. */
  function SetModeImmediately(f: Fsm, desired: string, reenter: bool): (r: Fsm)
    ensures !r.queued.IsSet()
    ensures r.modes == f.modes && r.default == f.default && SameQueues(f, r)
  {
    AdvanceToNextMode(QueueNextMode(f, desired, reenter))
  }

  /**
   * Setting a mode immediately lands in it exactly when it is registered;
   * otherwise whatever was queued before decides.
   */
  lemma SetModeImmediatelyLands(f: Fsm, desired: string, reenter: bool)
    ensures IsRegistered(f, desired) ==> SetModeImmediately(f, desired, reenter).current == desired
    ensures !IsRegistered(f, desired) ==> SetModeImmediately(f, desired, reenter) == AdvanceToNextMode(f)
  {
  }

  /** A registered current mode stays registered across any advance. */
  lemma AdvanceKeepsCurrentRegistered(f: Fsm)
    requires IsRegistered(f, f.current)
    ensures IsRegistered(AdvanceToNextMode(f), AdvanceToNextMode(f).current)
  {
  }

  /** Queueing a mode leaves the current mode alone; only an advance switches. */
  lemma QueueingNeverSwitches(f: Fsm, desired: string, reenter: bool)
    ensures QueueNextMode(f, desired, reenter).current == f.current
    ensures QueueNextMode(QueueNextMode(f, desired, reenter), desired, reenter) == QueueNextMode(f, desired, reenter)
  {
  }

  /**
   * OnSimulationRollback: clears the queued mode, sets the rolled-back
   * mode if it differs, and empties every queue.
   */
  function OnSimulationRollback(f: Fsm, syncMode: string): (r: Fsm)
    ensures !r.queued.IsSet()
    ensures r.queuedMoves == [] && r.queuedMoveInstances == [] && r.queuedEffects == [] && r.queuedModifiers == []
    ensures r.modes == f.modes && r.default == f.default
  {
    var cleared := ClearQueuedMode(f);
    var moded := if f.current != syncMode then SetModeImmediately(cleared, syncMode, false) else cleared;
    moded.(queuedMoves := [], queuedMoveInstances := [], queuedEffects := [], queuedModifiers := [])
  }

  /**
   * After a rollback the machine is in the rolled-back mode whenever that
   * mode is registered, and keeps its current mode otherwise.
   */
  lemma RollbackRestoresMode(f: Fsm, syncMode: string)
    ensures IsRegistered(f, syncMode) ==> OnSimulationRollback(f, syncMode).current == syncMode
    ensures !IsRegistered(f, syncMode) ==> OnSimulationRollback(f, syncMode).current == f.current
  {
  }

  // ---------------------------------------------------------------------
  // Instant effects
  // ---------------------------------------------------------------------

  /** The effects of `s` that are not yet due, in order. */
  function NotDue(s: seq<Scheduled<EffectId>>, frame: int, timeSecs: real): (r: seq<Scheduled<EffectId>>)
    ensures |r| <= |s|
  {
    if |s| == 0 then []
    else NotDue(s[..|s| - 1], frame, timeSecs) + (if Due(s[|s| - 1], frame, timeSecs) then [] else [s[|s| - 1]])
  }

  /** The effects of `s` that are due, in order. */
  function DueEffects(s: seq<Scheduled<EffectId>>, frame: int, timeSecs: real): (r: seq<Scheduled<EffectId>>)
    ensures |r| <= |s|
  {
    if |s| == 0 then []
    else DueEffects(s[..|s| - 1], frame, timeSecs) + (if Due(s[|s| - 1], frame, timeSecs) then [s[|s| - 1]] else [])
  }

  /**
   * Due and not-due effects together are the queue, up to order: nothing
   * is lost, nothing duplicated, and each side holds only its own kind.
   */
  lemma {:induction false} DueSplitsQueue(s: seq<Scheduled<EffectId>>, frame: int, timeSecs: real)
    ensures multiset(NotDue(s, frame, timeSecs)) + multiset(DueEffects(s, frame, timeSecs)) == multiset(s)
    ensures forall x :: x in NotDue(s, frame, timeSecs) ==> !Due(x, frame, timeSecs)
    ensures forall x :: x in DueEffects(s, frame, timeSecs) ==> Due(x, frame, timeSecs)
  {
    if |s| > 0 {
      var init, last := s[..|s| - 1], s[|s| - 1];
      DueSplitsQueue(init, frame, timeSecs);
      assert s == init + [last];
      var nd, de := NotDue(init, frame, timeSecs), DueEffects(init, frame, timeSecs);
      if Due(last, frame, timeSecs) {
        assert NotDue(s, frame, timeSecs) == nd + [];
        assert DueEffects(s, frame, timeSecs) == de + [last];
        SplitAppend(nd, [], de, [last], init, last);
      } else {
        assert NotDue(s, frame, timeSecs) == nd + [last];
        assert DueEffects(s, frame, timeSecs) == de + [];
        SplitAppend(nd, [last], de, [], init, last);
      }
    }
  }

  /** Appending one element to one side of a split appends it to the whole. */
  lemma SplitAppend<T>(a: seq<T>, a1: seq<T>, b: seq<T>, b1: seq<T>, s: seq<T>, x: T)
    requires multiset(a) + multiset(b) == multiset(s)
    requires multiset(a1) + multiset(b1) == multiset{x}
    ensures multiset(a + a1) + multiset(b + b1) == multiset(s + [x])
  {
    assert multiset(s + [x]) == multiset(s) + multiset{x};
    assert multiset(a + a1) == multiset(a) + multiset(a1);
    assert multiset(b + b1) == multiset(b) + multiset(b1);
  }

  /** Extending the walked prefix by one effect extends exactly one of the two lists. */
  lemma PrefixStep(queue: seq<Scheduled<EffectId>>, k: nat, frame: int, timeSecs: real, changes: EffectId -> bool)
    requires k < |queue|
    ensures NotDue(queue[..k + 1], frame, timeSecs)
      == NotDue(queue[..k], frame, timeSecs) + (if Due(queue[k], frame, timeSecs) then [] else [queue[k]])
    ensures DueEffects(queue[..k + 1], frame, timeSecs)
      == DueEffects(queue[..k], frame, timeSecs) + (if Due(queue[k], frame, timeSecs) then [queue[k]] else [])
    ensures AnyChanges(queue[..k + 1], frame, timeSecs, changes)
      == (AnyChanges(queue[..k], frame, timeSecs, changes) || (Due(queue[k], frame, timeSecs) && changes(queue[k].effect)))
  {
    assert queue[..k + 1][..k] == queue[..k];
  }

  lemma RemoveAtSplits<T>(s: seq<T>, i: nat)
    requires i < |s|
    ensures (s[..i] + s[i + 1..])[..i] == s[..i]
    ensures (s[..i] + s[i + 1..])[i..] == s[i + 1..]
  {
  }

  /** Whether some due effect of `s` reports a change. */
  function AnyChanges(s: seq<Scheduled<EffectId>>, frame: int, timeSecs: real, changes: EffectId -> bool): bool
  {
    if |s| == 0 then false
    else AnyChanges(s[..|s| - 1], frame, timeSecs, changes) || (Due(s[|s| - 1], frame, timeSecs) && changes(s[|s| - 1].effect))
  }

  lemma {:induction false} AnyChangesMeans(s: seq<Scheduled<EffectId>>, frame: int, timeSecs: real, changes: EffectId -> bool)
    ensures AnyChanges(s, frame, timeSecs, changes) <==> exists j :: 0 <= j < |s| && Due(s[j], frame, timeSecs) && changes(s[j].effect)
  {
    if |s| > 0 {
      var init := s[..|s| - 1];
      AnyChangesMeans(init, frame, timeSecs, changes);
      if AnyChanges(init, frame, timeSecs, changes) {
        var j :| 0 <= j < |init| && Due(init[j], frame, timeSecs) && changes(init[j].effect);
        assert s[j] == init[j];
      }
      if exists j :: 0 <= j < |s| && Due(s[j], frame, timeSecs) && changes(s[j].effect) {
        var j :| 0 <= j < |s| && Due(s[j], frame, timeSecs) && changes(s[j].effect);
        if j < |s| - 1 {
          assert init[j] == s[j];
        }
      }
    }
  }

  /**
   * ApplyInstantEffects: walks the queue, applies and removes every due
   * effect (by frame in fixed-dt mode, by server time otherwise), keeps the
   * rest in order, and reports whether any applied effect changed the
   * state. `changes` is what each effect's ApplyMovementEffect returns.
   */
  method ApplyInstantEffects(queue: seq<Scheduled<EffectId>>, serverFrame: int, serverTimeSecs: real, changes: EffectId -> bool)
    returns (applied: bool, kept: seq<Scheduled<EffectId>>, ran: seq<Scheduled<EffectId>>)
    ensures kept == NotDue(queue, serverFrame, serverTimeSecs)
    ensures ran == DueEffects(queue, serverFrame, serverTimeSecs)
    ensures applied <==> exists j :: 0 <= j < |queue| && Due(queue[j], serverFrame, serverTimeSecs) && changes(queue[j].effect)
  {
    AnyChangesMeans(queue, serverFrame, serverTimeSecs, changes);
    applied := false;
    kept := queue;
    ran := [];
    var i := 0;
    var k := 0;
    while i < |kept|
      invariant 0 <= k <= |queue| && 0 <= i <= |kept|
      invariant kept[..i] == NotDue(queue[..k], serverFrame, serverTimeSecs)
      invariant kept[i..] == queue[k..]
      invariant ran == DueEffects(queue[..k], serverFrame, serverTimeSecs)
      invariant applied == AnyChanges(queue[..k], serverFrame, serverTimeSecs, changes)
      decreases |kept| - i
    {
      PrefixStep(queue, k, serverFrame, serverTimeSecs, changes);
      var e := kept[i];
      assert e == queue[k];
      if Due(e, serverFrame, serverTimeSecs) {
        applied := applied || changes(e.effect);
        RemoveAtSplits(kept, i);
        assert kept[i + 1..] == queue[k + 1..] by { assert kept[i + 1..] == kept[i..][1..]; }
        kept := kept[..i] + kept[i + 1..];
        ran := ran + [e];
      } else {
        assert kept[..i + 1] == kept[..i] + [e];
        i := i + 1;
      }
      k := k + 1;
    }
    assert queue[..k] == queue;
    assert kept[..i] == kept;
  }

  // ---------------------------------------------------------------------
  // Substep time accounting
  // ---------------------------------------------------------------------

  /** The substep loop's clock: time used so far and the run of consecutive full refunds. */
  datatype Clock = Clock(totalUsedMs: real, refunds: nat)

  /** The whole substep came back unused (IsNearlyEqual with UE_KINDA_SMALL_NUMBER). */
  predicate FullRefund(subStepMs: real, remainingMs: real)
  {
    RealAbs(subStepMs - remainingMs) <= KINDA_SMALL_NUMBER
  }

  /** The refund limit as the loop experiences it: a limit below 1 forces on the first refund. */
  function RefundLimit(maxRefunds: int): (m: nat)
    ensures m >= 1 && m >= maxRefunds
  {
    Max(maxRefunds, 1)
  }

  /**
   * One substep's accounting. The substep gets the time not used yet. A
   * mode that ran reports its RemainingMs, which is clamped into the
   * substep; without a registered mode the end state keeps its reset
   * value 0. A full refund extends the run of refunds, and once the run
   * reaches the limit the whole substep is charged as well; a partial
   * refund ends the run.
   */
  function SubstepClock(stepMs: real, c: Clock, modeRan: bool, reportedMs: real, maxRefunds: int): (r: Clock)
    requires c.totalUsedMs < stepMs
    ensures c.totalUsedMs <= r.totalUsedMs
    ensures !modeRan ==> r.totalUsedMs == stepMs && r.refunds == c.refunds
    ensures modeRan && !FullRefund(stepMs - c.totalUsedMs, RealClamp(reportedMs, 0.0, stepMs - c.totalUsedMs)) ==>
      r.refunds == 0 && c.totalUsedMs + KINDA_SMALL_NUMBER < r.totalUsedMs <= stepMs
      && r.totalUsedMs == stepMs - RealClamp(reportedMs, 0.0, stepMs - c.totalUsedMs)
    ensures modeRan && FullRefund(stepMs - c.totalUsedMs, RealClamp(reportedMs, 0.0, stepMs - c.totalUsedMs)) ==>
      r.refunds == c.refunds + 1
      && (r.refunds >= maxRefunds ==> r.totalUsedMs >= stepMs)
      && (r.refunds < maxRefunds ==> r.totalUsedMs <= c.totalUsedMs + KINDA_SMALL_NUMBER && r.totalUsedMs <= stepMs)
  {
    var sub := stepMs - c.totalUsedMs;
    var remaining := if modeRan then RealClamp(reportedMs, 0.0, sub) else 0.0;
    var full := modeRan && FullRefund(sub, remaining);
    var refunds := if !modeRan then c.refunds else if full then c.refunds + 1 else 0;
    var forced := full && refunds >= maxRefunds;
    Clock(c.totalUsedMs + (if forced then sub else 0.0) + (sub - remaining), refunds)
  }

  /** What the current mode reports for a substep: its unused time and the mode it asks for next. */
  datatype ModeReport = ModeReport(remainingMs: real, nextMode: string)

  datatype TickProgress = TickProgress(fsm: Fsm, clock: Clock, substeps: nat)

  /**
   * The substep loop of OnSimulationTick: while time is left, the current
   * mode runs if it is registered and reports, its next mode is queued,
   * the clock is charged and the machine advances. `reports` supplies the
   * modes' answers; the loop also stops when they run out.
   */
  function SubstepLoop(stepMs: real, p: TickProgress, reports: seq<ModeReport>, maxRefunds: int): (r: TickProgress)
    ensures p.substeps <= r.substeps <= p.substeps + |reports|
    ensures r.fsm.modes == p.fsm.modes
    ensures r.substeps > p.substeps ==> !r.fsm.queued.IsSet()
    decreases |reports|
  {
    if p.clock.totalUsedMs >= stepMs || |reports| == 0 then p
    else
      var ran := IsRegistered(p.fsm, p.fsm.current);
      var clock := SubstepClock(stepMs, p.clock, ran, reports[0].remainingMs, maxRefunds);
      var queued := if ran then QueueNextMode(p.fsm, reports[0].nextMode, false) else p.fsm;
      SubstepLoop(stepMs, TickProgress(AdvanceToNextMode(queued), clock, p.substeps + 1), reports[1..], maxRefunds)
  }

  /** The start of OnSimulationTick: queue the synced mode unless a transition is pending, then advance. */
  function TickStart(f: Fsm, syncMode: string): (r: Fsm)
    ensures !r.queued.IsSet()
    ensures f.queued.IsSet() ==> r == AdvanceToNextMode(f)
    ensures !f.queued.IsSet() && IsRegistered(f, syncMode) ==> r.current == syncMode
    ensures r.modes == f.modes
  {
    if !f.queued.IsSet() then AdvanceToNextMode(QueueNextMode(f, syncMode, false)) else AdvanceToNextMode(f)
  }

  /** OnSimulationTick's mode and time bookkeeping. */
  function OnSimulationTick(f: Fsm, syncMode: string, stepMs: real, reports: seq<ModeReport>, maxRefunds: int): (r: TickProgress)
    ensures !r.fsm.queued.IsSet()
    ensures r.fsm.modes == f.modes
    ensures r.substeps <= |reports|
  {
    SubstepLoop(stepMs, TickProgress(TickStart(f, syncMode), Clock(0.0, 0), 0), reports, maxRefunds)
  }

  /** Time left, in KINDA_SMALL_NUMBER units, rounded up. */
  function Chunks(stepMs: real, totalUsedMs: real): int
  {
    Ceil((stepMs - totalUsedMs) * 10000.0)
  }

  /** A measure that every unfinished substep lowers. */
  function Potential(stepMs: real, c: Clock, maxRefunds: int): int
  {
    Chunks(stepMs, c.totalUsedMs) * RefundLimit(maxRefunds) + (RefundLimit(maxRefunds) - 1 - c.refunds)
  }

  /** The run of refunds stays below the limit while the loop runs. */
  predicate Running(stepMs: real, c: Clock, maxRefunds: int)
  {
    c.totalUsedMs < stepMs ==> c.refunds < RefundLimit(maxRefunds)
  }

  /** An unfinished substep keeps the loop running and lowers the potential. */
  lemma SubstepLowersPotential(stepMs: real, c: Clock, modeRan: bool, reportedMs: real, maxRefunds: int)
    requires c.totalUsedMs < stepMs && Running(stepMs, c, maxRefunds)
    ensures var r := SubstepClock(stepMs, c, modeRan, reportedMs, maxRefunds);
      Running(stepMs, r, maxRefunds)
      && (r.totalUsedMs < stepMs ==> 0 <= Potential(stepMs, r, maxRefunds) < Potential(stepMs, c, maxRefunds))
  {
    var r := SubstepClock(stepMs, c, modeRan, reportedMs, maxRefunds);
    var m := RefundLimit(maxRefunds);
    var before := (stepMs - c.totalUsedMs) * 10000.0;
    var after := (stepMs - r.totalUsedMs) * 10000.0;
    var n := Chunks(stepMs, c.totalUsedMs);
    if r.totalUsedMs < stepMs {
      assert modeRan;
      CeilLeast(after, 0);
      if r.refunds == 0 {
        assert after < before - 1.0;
        CeilLeast(after, n - 1);
        MulMono(m, Chunks(stepMs, r.totalUsedMs), n - 1);
      } else {
        assert after <= before;
        CeilLeast(after, n);
        MulMono(m, Chunks(stepMs, r.totalUsedMs), n);
      }
    }
  }

  /**
   * The loop cannot freeze: from a running clock, as many mode reports as
   * the potential (plus one) are enough to use up the whole step.
   */
  lemma {:induction false} SubstepLoopFinishes(stepMs: real, p: TickProgress, reports: seq<ModeReport>, maxRefunds: int)
    requires Running(stepMs, p.clock, maxRefunds)
    requires |reports| > Potential(stepMs, p.clock, maxRefunds)
    ensures SubstepLoop(stepMs, p, reports, maxRefunds).clock.totalUsedMs >= stepMs
    decreases |reports|
  {
    if p.clock.totalUsedMs < stepMs {
      var ran := IsRegistered(p.fsm, p.fsm.current);
      var clock := SubstepClock(stepMs, p.clock, ran, reports[0].remainingMs, maxRefunds);
      var queued := if ran then QueueNextMode(p.fsm, reports[0].nextMode, false) else p.fsm;
      var next := TickProgress(AdvanceToNextMode(queued), clock, p.substeps + 1);
      SubstepLowersPotential(stepMs, p.clock, ran, reports[0].remainingMs, maxRefunds);
      if clock.totalUsedMs < stepMs {
        SubstepLoopFinishes(stepMs, next, reports[1..], maxRefunds);
      }
      assert SubstepLoop(stepMs, p, reports, maxRefunds) == SubstepLoop(stepMs, next, reports[1..], maxRefunds);
    }
  }

  /**
   * A whole simulation tick finishes, using all of its time, once the modes
   * have been consulted (Ceil(StepMs / UE_KINDA_SMALL_NUMBER) + 1) times the
   * refund limit.
   */
  lemma TickUsesWholeStep(f: Fsm, syncMode: string, stepMs: real, reports: seq<ModeReport>, maxRefunds: int)
    requires |reports| >= (Ceil(stepMs * 10000.0) + 1) * RefundLimit(maxRefunds)
    ensures OnSimulationTick(f, syncMode, stepMs, reports, maxRefunds).clock.totalUsedMs >= stepMs
  {
    var m := RefundLimit(maxRefunds);
    assert (Ceil(stepMs * 10000.0) + 1) * m == Ceil(stepMs * 10000.0) * m + m;
    assert Potential(stepMs, Clock(0.0, 0), maxRefunds) == Ceil(stepMs * 10000.0) * m + m - 1;
    SubstepLoopFinishes(stepMs, TickProgress(TickStart(f, syncMode), Clock(0.0, 0), 0), reports, maxRefunds);
  }
}
