/**
 * The physics tick services. The local one ticks every registered
 * instance one frame (normally or in a resimulation), choosing the tick
 * context by role and copying the input command forward. The remote
 * independent one runs on the server for clients that tick on their own
 * clock: each engine frame it banks the frame's time and consumes the
 * client's received commands while the time and a per-frame budget last.
 * The simulation step itself is the model definition's and is a
 * parameter; float times are reals.
 */
module PhysicsTick {
  import opened Common
  import FrameBuffer
  import TickState
  import ServerInput
  import opened ServiceFlags
  import opened RollbackService

  // ---------------------------------------------------------------------
  // The local tick service
  // ---------------------------------------------------------------------

  /** EJoltSimulationTickContext, the values these services hand out. */
  datatype TickContext = NoContext | AuthorityContext | Predict | Resimulate

  /**
   * GetTickContext: in a resimulation both proxies resimulate; otherwise
   * the authority ticks as authority and both proxies predict. Any other
   * role is unexpected and gets no context.
   */
  function GetTickContext(isResim: bool, role: NetRole): (c: TickContext)
    ensures c == NoContext <==> role == RoleNone || (isResim && role == Authority)
    ensures isResim && c != NoContext ==> c == Resimulate
    ensures !isResim && c != NoContext ==> (c == AuthorityContext <==> role == Authority)
  {
    if isResim then
      match role
      case AutonomousProxy => Resimulate
      case SimulatedProxy => Resimulate
      case _ => NoContext
    else
      match role
      case Authority => AuthorityContext
      case AutonomousProxy => Predict
      case SimulatedProxy => Predict
      case _ => NoContext
  }

  /** Whether the tick copies the input frame's command into the output frame: always, except when resimulating a non-simulated proxy. */
  predicate CopiesInput(isResim: bool, role: NetRole)
  {
    !isResim || role == SimulatedProxy
  }

  /** One registered instance of the local service: its role and frame buffer. */
  datatype LocalInstance<I, S> = LocalInstance(netRole: NetRole, frames: FrameBuffer.Buffer<FrameData<I, S>>)

  /** The step the model definition's simulation takes: the input frame, the output frame as it stands, the step, the end time and the context give the output state. */
  type Simulate<!I, !S> = (FrameData<I, S>, FrameData<I, S>, TickState.NetSimTimeStep, int, TickContext) -> S

  /**
   * One instance's tick: the output frame takes the input frame's command
   * when the tick copies input, and then the simulation writes its state.
   */
  function TickInstance<I, S>(inst: LocalInstance<I, S>, step: TickState.NetSimTimeStep, service: TickState.ServiceTimeStep, isResim: bool, simulate: Simulate<I, S>): (r: LocalInstance<I, S>)
    requires FrameBuffer.Valid(inst.frames) && service.localInputFrame >= 0 && service.localOutputFrame >= 0
    ensures FrameBuffer.Valid(r.frames) && r.netRole == inst.netRole
  {
    var input := FrameBuffer.At(inst.frames, service.localInputFrame);
    var output := FrameBuffer.At(inst.frames, service.localOutputFrame);
    var output' := if CopiesInput(isResim, inst.netRole) then output.(input := input.input) else output;
    var state := simulate(input, output', step, service.endTotalSimulationTime, GetTickContext(isResim, inst.netRole));
    LocalInstance(inst.netRole, FrameBuffer.Put(inst.frames, service.localOutputFrame, output'.(state := state)))
  }

  /**
   * The output frame after a tick: its command is the input frame's
   * exactly when the tick copies input (or it already was), and its state
   * is the simulation's; other frames keep their contents.
   */
  lemma TickInstanceWritesOutput<I, S>(inst: LocalInstance<I, S>, step: TickState.NetSimTimeStep, service: TickState.ServiceTimeStep, isResim: bool, simulate: Simulate<I, S>)
    requires FrameBuffer.Valid(inst.frames) && service.localInputFrame >= 0 && service.localOutputFrame >= 0
    requires FrameBuffer.Slot(inst.frames, service.localInputFrame) != FrameBuffer.Slot(inst.frames, service.localOutputFrame)
    ensures var r := TickInstance(inst, step, service, isResim, simulate);
      var input := FrameBuffer.At(inst.frames, service.localInputFrame);
      var output := FrameBuffer.At(r.frames, service.localOutputFrame);
      (CopiesInput(isResim, inst.netRole) ==> output.input == input.input) &&
      (!CopiesInput(isResim, inst.netRole) ==> output.input == FrameBuffer.At(inst.frames, service.localOutputFrame).input) &&
      FrameBuffer.At(r.frames, service.localInputFrame) == input &&
      output.state == simulate(input, output.(state := FrameBuffer.At(inst.frames, service.localOutputFrame).state), step,
        service.endTotalSimulationTime, GetTickContext(isResim, inst.netRole))
  {
  }

  /** Tick_Internal: every registered instance ticks the same step. */
  function TickLocal<I, S>(insts: seq<LocalInstance<I, S>>, step: TickState.NetSimTimeStep, service: TickState.ServiceTimeStep, isResim: bool, simulate: Simulate<I, S>): (r: seq<LocalInstance<I, S>>)
    requires service.localInputFrame >= 0 && service.localOutputFrame >= 0
    requires forall i :: 0 <= i < |insts| ==> FrameBuffer.Valid(insts[i].frames)
    ensures |r| == |insts|
    ensures forall i :: 0 <= i < |r| ==> r[i] == TickInstance(insts[i], step, service, isResim, simulate)
  {
    seq(|insts|, i requires 0 <= i < |insts| => TickInstance(insts[i], step, service, isResim, simulate))
  }

  /** A resimulation never predicts or ticks as authority, and a normal tick never resimulates. */
  lemma ResimContextsAreResimulate(role: NetRole)
    ensures GetTickContext(true, role) in {NoContext, Resimulate}
    ensures GetTickContext(false, role) != Resimulate
    ensures role in {AutonomousProxy, SimulatedProxy} ==> GetTickContext(true, role) == Resimulate && GetTickContext(false, role) == Predict
  {
  }

  // ---------------------------------------------------------------------
  // The remote independent tick service
  // ---------------------------------------------------------------------

  const MIN_REMOTE_CLIENT_STEP_MS: int := 1
  const MAX_REMOTE_CLIENT_STEP_MS: int := 100
  const MAX_REMOTE_CLIENT_STEPS_PER_FRAME: nat := 6
  const MAX_REMOTE_CLIENT_TOTAL_MS_PER_FRAME: int := 200

  /** A float converted to int32: the fraction is dropped toward zero. */
  function TruncToInt(x: real): (r: int)
    ensures x >= 0.0 ==> r as real <= x < r as real + 1.0
    ensures x < 0.0 ==> r as real - 1.0 < x <= r as real
  {
    if x >= 0.0 then x.Floor else -((-x).Floor)
  }

  /** IsNearlyZero snaps tiny leftovers to zero. */
  function SnapNearlyZero(x: real): (r: real)
    ensures RealAbs(r - x) <= SMALL_NUMBER
    ensures x >= 0.0 ==> r >= 0.0
  {
    if RealAbs(x) <= SMALL_NUMBER then 0.0 else x
  }

  /** A remotely controlled client as the server ticks it: its receive bookkeeping, banked time and frames. */
  datatype RemoteClient<I, S> = RemoteClient(
    recv: ServerInput.IndependentServer<I>,
    unspentTimeMS: real,
    frames: FrameBuffer.Buffer<FrameData<I, S>>)

  predicate ValidRemote<I, S>(c: RemoteClient<I, S>)
  {
    ServerInput.ValidIndependent(c.recv) && c.recv.pendingFrame >= 0 && FrameBuffer.Valid(c.frames)
  }

  /** The running state of one client's consume loop in one engine frame: steps taken, milliseconds used, and the input frames ticked. */
  datatype Budget = Budget(totalFrames: nat, totalMS: int, ticked: seq<int>, steps: seq<TickState.NetSimTimeStep>)

  /** Why the loop stopped. */
  datatype Stop = NothingLeft | OutOfTime | OverFrameBudget | StepLimit

  /** A command's step length: its delta clamped to [1, 200] ms (the per-frame total, not the per-step maximum, bounds it). */
  function CommandMS(deltaMS: int): (ms: int)
    ensures MIN_REMOTE_CLIENT_STEP_MS <= ms <= MAX_REMOTE_CLIENT_TOTAL_MS_PER_FRAME
    ensures 1 <= deltaMS <= 200 ==> ms == deltaMS
  {
    Clamp(deltaMS, MIN_REMOTE_CLIENT_STEP_MS, MAX_REMOTE_CLIENT_TOTAL_MS_PER_FRAME)
  }

  /**
   * One tick of a consumed command: the time is spent, the command is
   * written into the pending frame, and the simulation writes the next
   * frame, with the cue time fixed for the engine frame.
   */
  function TickCommand<I, S>(c: RemoteClient<I, S>, cmd: I, ms: int, cueTimeMS: int, simulate: Simulate<I, S>): (r: (RemoteClient<I, S>, TickState.NetSimTimeStep))
    requires ValidRemote(c)
    ensures ValidRemote(r.0)
    ensures r.1 == TickState.NetSimTimeStep(ms, c.recv.totalSimTimeMS, c.recv.pendingFrame + 1)
    ensures r.0.recv == c.recv.(pendingFrame := c.recv.pendingFrame + 1, totalSimTimeMS := c.recv.totalSimTimeMS + ms)
    ensures r.0.unspentTimeMS == SnapNearlyZero(c.unspentTimeMS - ms as real)
  {
    var inputFrame := c.recv.pendingFrame;
    var outputFrame := inputFrame + 1;
    var frames := FrameBuffer.Put(c.frames, inputFrame, FrameBuffer.At(c.frames, inputFrame).(input := cmd));
    var step := TickState.NetSimTimeStep(ms, c.recv.totalSimTimeMS, outputFrame);
    var input := FrameBuffer.At(frames, inputFrame);
    var output := FrameBuffer.At(frames, outputFrame);
    var state := simulate(input, output, step, cueTimeMS, AuthorityContext);
    var frames' := FrameBuffer.Put(frames, outputFrame, output.(state := state));
    var recv := c.recv.(pendingFrame := outputFrame, totalSimTimeMS := c.recv.totalSimTimeMS + ms);
    (RemoteClient(recv, SnapNearlyZero(c.unspentTimeMS - ms as real), frames'), step)
  }

  /** The outcome of looking at the next command: the client and budget after it, and why the loop stops there, if it does. */
  datatype Outcome<I, S> = Outcome(client: RemoteClient<I, S>, budget: Budget, stop: Option<Stop>)

  /** The budget is within its limits, with room for another step. */
  predicate Open(b: Budget)
  {
    b.totalFrames < MAX_REMOTE_CLIENT_STEPS_PER_FRAME && 0 <= b.totalMS <= MAX_REMOTE_CLIENT_TOTAL_MS_PER_FRAME
  }

  /**
   * Looking at the next command: a dropped one (zero delta) is consumed
   * and skipped; one whose step does not fit the banked time or the
   * frame's 200 ms stops the loop; any other is ticked, and the sixth tick
   * stops the loop. When `consumeOnStop` holds, the command that stops the
   * loop is consumed anyway, as the pre-increment of LastConsumedFrame does;
   * otherwise it stays for the next engine frame.
   */
  function ConsumeOne<I, S>(c: RemoteClient<I, S>, b: Budget, cueTimeMS: int, simulate: Simulate<I, S>, consumeOnStop: bool): (r: Outcome<I, S>)
    requires ValidRemote(c) && Open(b) && c.recv.lastConsumedFrame < c.recv.lastRecvFrame
    ensures ValidRemote(r.client)
    ensures r.client.recv.lastRecvFrame == c.recv.lastRecvFrame && r.client.recv.inputs == c.recv.inputs
    ensures r.stop.None? ==> Open(r.budget) && r.client.recv.lastConsumedFrame == c.recv.lastConsumedFrame + 1
  {
    var recv := c.recv;
    var next := recv.lastConsumedFrame + 1;
    var entry := FrameBuffer.At(recv.inputs, next);
    var consumed := c.(recv := recv.(lastConsumedFrame := next));
    if entry.deltaMS == 0 then Outcome(consumed, b, None)
    else
      var ms := CommandMS(entry.deltaMS);
      var stopped := if consumeOnStop then consumed else c;
      if ms > TruncToInt(c.unspentTimeMS) then Outcome(stopped, b, Some(OutOfTime))
      else if b.totalMS + ms > MAX_REMOTE_CLIENT_TOTAL_MS_PER_FRAME then Outcome(stopped, b, Some(OverFrameBudget))
      else
        var t := TickCommand(consumed, entry.cmd, ms, cueTimeMS, simulate);
        var b' := Budget(b.totalFrames + 1, b.totalMS + ms, b.ticked + [next], b.steps + [t.1]);
        Outcome(t.0, b', if b'.totalFrames == MAX_REMOTE_CLIENT_STEPS_PER_FRAME then Some(StepLimit) else None)
  }

  /** The consume loop: commands are looked at in frame order until one stops it or none is left. */
  function ConsumeLoop<I, S>(c: RemoteClient<I, S>, b: Budget, cueTimeMS: int, simulate: Simulate<I, S>, consumeOnStop: bool): (r: (RemoteClient<I, S>, Budget, Stop))
    requires ValidRemote(c) && Open(b)
    ensures ValidRemote(r.0)
    ensures r.0.recv.lastRecvFrame == c.recv.lastRecvFrame && r.0.recv.inputs == c.recv.inputs
    decreases c.recv.lastRecvFrame - c.recv.lastConsumedFrame
  {
    if c.recv.lastConsumedFrame >= c.recv.lastRecvFrame then (c, b, NothingLeft)
    else
      var o := ConsumeOne(c, b, cueTimeMS, simulate, consumeOnStop);
      if o.stop.Some? then (o.client, o.budget, o.stop.value)
      else ConsumeLoop(o.client, o.budget, cueTimeMS, simulate, consumeOnStop)
  }

  /**
   * The accounting between two points of the loop: steps and milliseconds
   * only grow and stay within six and 200; each step is logged with its
   * input frame; the pending frame advances by the steps and the
   * simulation time by the milliseconds.
   */
  predicate Accounts<I, S>(c: RemoteClient<I, S>, b: Budget, c': RemoteClient<I, S>, b': Budget)
  {
    b.totalFrames <= b'.totalFrames <= MAX_REMOTE_CLIENT_STEPS_PER_FRAME &&
    b.totalMS <= b'.totalMS <= MAX_REMOTE_CLIENT_TOTAL_MS_PER_FRAME &&
    |b.steps| <= |b'.steps| && |b.ticked| <= |b'.ticked| &&
    b'.totalFrames - b.totalFrames == |b'.steps| - |b.steps| == |b'.ticked| - |b.ticked| &&
    b'.steps[..|b.steps|] == b.steps && b'.ticked[..|b.ticked|] == b.ticked &&
    c'.recv.pendingFrame == c.recv.pendingFrame + (b'.totalFrames - b.totalFrames) &&
    c'.recv.totalSimTimeMS == c.recv.totalSimTimeMS + (b'.totalMS - b.totalMS)
  }

  lemma AccountsTrans<I, S>(c1: RemoteClient<I, S>, b1: Budget, c2: RemoteClient<I, S>, b2: Budget, c3: RemoteClient<I, S>, b3: Budget)
    requires Accounts(c1, b1, c2, b2) && Accounts(c2, b2, c3, b3)
    ensures Accounts(c1, b1, c3, b3)
  {
    assert b3.steps[..|b1.steps|] == b3.steps[..|b2.steps|][..|b1.steps|];
    assert b3.ticked[..|b1.ticked|] == b3.ticked[..|b2.ticked|][..|b1.ticked|];
  }

  /** One look at a command keeps the accounting, consumes at most that command, and keeps banked time non-negative. */
  lemma ConsumeOneAccounts<I, S>(c: RemoteClient<I, S>, b: Budget, cueTimeMS: int, simulate: Simulate<I, S>, consumeOnStop: bool)
    requires ValidRemote(c) && Open(b) && c.recv.lastConsumedFrame < c.recv.lastRecvFrame
    ensures var o := ConsumeOne(c, b, cueTimeMS, simulate, consumeOnStop);
      Accounts(c, b, o.client, o.budget) &&
      c.recv.lastConsumedFrame <= o.client.recv.lastConsumedFrame <= c.recv.lastConsumedFrame + 1 &&
      (o.stop == Some(StepLimit) <==> o.budget.totalFrames == MAX_REMOTE_CLIENT_STEPS_PER_FRAME) &&
      (c.unspentTimeMS >= 0.0 ==> o.client.unspentTimeMS >= 0.0)
  {
    var next := c.recv.lastConsumedFrame + 1;
    var entry := FrameBuffer.At(c.recv.inputs, next);
    if entry.deltaMS != 0 {
      var ms := CommandMS(entry.deltaMS);
      if ms <= TruncToInt(c.unspentTimeMS) && c.unspentTimeMS >= 0.0 {
        assert c.unspentTimeMS - ms as real >= 0.0;
      }
    }
  }

  /**
   * The loop as a whole: at most six steps and 200 ms in the frame, the
   * pending frame and simulation time advanced by exactly what was
   * ticked, consumption forward and never past the last received frame,
   * banked time kept non-negative, and a stop with nothing left only when
   * every received command is consumed.
   */
  lemma {:induction false} ConsumeLoopAccounts<I, S>(c: RemoteClient<I, S>, b: Budget, cueTimeMS: int, simulate: Simulate<I, S>, consumeOnStop: bool)
    requires ValidRemote(c) && Open(b)
    ensures var r := ConsumeLoop(c, b, cueTimeMS, simulate, consumeOnStop);
      Accounts(c, b, r.0, r.1) &&
      c.recv.lastConsumedFrame <= r.0.recv.lastConsumedFrame <= Max(c.recv.lastConsumedFrame, c.recv.lastRecvFrame) &&
      (r.2 == NothingLeft ==> r.0.recv.lastConsumedFrame >= r.0.recv.lastRecvFrame) &&
      (r.2 == StepLimit <==> r.1.totalFrames == MAX_REMOTE_CLIENT_STEPS_PER_FRAME) &&
      (c.unspentTimeMS >= 0.0 ==> r.0.unspentTimeMS >= 0.0)
    decreases c.recv.lastRecvFrame - c.recv.lastConsumedFrame
  {
    if c.recv.lastConsumedFrame < c.recv.lastRecvFrame {
      var o := ConsumeOne(c, b, cueTimeMS, simulate, consumeOnStop);
      ConsumeOneAccounts(c, b, cueTimeMS, simulate, consumeOnStop);
      if o.stop.None? {
        ConsumeLoopAccounts(o.client, o.budget, cueTimeMS, simulate, consumeOnStop);
        var r := ConsumeLoop(o.client, o.budget, cueTimeMS, simulate, consumeOnStop);
        AccountsTrans(c, b, o.client, o.budget, r.0, r.1);
      }
    } else {
      assert b.steps[..|b.steps|] == b.steps && b.ticked[..|b.ticked|] == b.ticked;
    }
  }

  /** The input frames in (lo, hi] whose command was not dropped, in frame order. */
  function NotDropped<I>(inputs: FrameBuffer.Buffer<ServerInput.InputFrame<I>>, lo: int, hi: int): (fs: seq<int>)
    requires FrameBuffer.Valid(inputs) && lo >= INDEX_NONE
    ensures forall k :: 0 <= k < |fs| ==> lo < fs[k] <= hi
    decreases hi - lo
  {
    if hi <= lo then []
    else NotDropped(inputs, lo, hi - 1) + (if FrameBuffer.At(inputs, hi).deltaMS != 0 then [hi] else [])
  }

  lemma {:induction false} NotDroppedSplit<I>(inputs: FrameBuffer.Buffer<ServerInput.InputFrame<I>>, lo: int, mid: int, hi: int)
    requires FrameBuffer.Valid(inputs) && INDEX_NONE <= lo <= mid <= hi
    ensures NotDropped(inputs, lo, hi) == NotDropped(inputs, lo, mid) + NotDropped(inputs, mid, hi)
    decreases hi - mid
  {
    if hi > mid {
      NotDroppedSplit(inputs, lo, mid, hi - 1);
    }
  }

  /** The loop stopped on a command that did not fit: too little banked time or too much of the frame's 200 ms. */
  predicate Overrun(s: Stop)
  {
    s == OutOfTime || s == OverFrameBudget
  }

  /**
   * What the loop ticked, from consumed frame `lc` with `ticked` already
   * logged, given its result `r`: without `consumeOnStop` every consumed
   * command is ticked unless dropped and a command that does not fit stays
   * as the next one; with it, such a command is consumed unticked.
   */
  predicate LoopTicked<I, S>(inputs: FrameBuffer.Buffer<ServerInput.InputFrame<I>>, lastRecv: int, lc: int, ticked: seq<int>, r: (RemoteClient<I, S>, Budget, Stop), consumeOnStop: bool)
    requires FrameBuffer.Valid(inputs) && lc >= INDEX_NONE
  {
    var lc' := r.0.recv.lastConsumedFrame;
    lc <= lc' &&
    if consumeOnStop && Overrun(r.2) then
      lc < lc' && FrameBuffer.At(inputs, lc').deltaMS != 0 &&
      r.1.ticked == ticked + NotDropped(inputs, lc, lc' - 1)
    else
      r.1.ticked == ticked + NotDropped(inputs, lc, lc') &&
      (Overrun(r.2) ==> lc' < lastRecv && FrameBuffer.At(inputs, lc' + 1).deltaMS != 0)
  }

  /** A loop that carries on after one ticked or skipped command ticks what the rest of it ticks, after that command. */
  lemma LoopTickedAfterOne<I, S>(inputs: FrameBuffer.Buffer<ServerInput.InputFrame<I>>, lastRecv: int, lc: int, ticked: seq<int>, ticked1: seq<int>, r: (RemoteClient<I, S>, Budget, Stop), consumeOnStop: bool)
    requires FrameBuffer.Valid(inputs) && lc >= INDEX_NONE
    requires ticked1 == ticked + NotDropped(inputs, lc, lc + 1)
    requires LoopTicked(inputs, lastRecv, lc + 1, ticked1, r, consumeOnStop)
    ensures LoopTicked(inputs, lastRecv, lc, ticked, r, consumeOnStop)
  {
    var lc' := r.0.recv.lastConsumedFrame;
    if consumeOnStop && Overrun(r.2) {
      TickedAfterOne(inputs, lc, lc' - 1, ticked, ticked1, r.1.ticked);
    } else {
      TickedAfterOne(inputs, lc, lc', ticked, ticked1, r.1.ticked);
    }
  }

  /** The ticks logged for command lc + 1 and then for lc + 2 .. hi are those for lc + 1 .. hi. */
  lemma TickedAfterOne<I>(inputs: FrameBuffer.Buffer<ServerInput.InputFrame<I>>, lc: int, hi: int, ticked: seq<int>, ticked1: seq<int>, t: seq<int>)
    requires FrameBuffer.Valid(inputs) && INDEX_NONE <= lc && lc + 1 <= hi
    requires ticked1 == ticked + NotDropped(inputs, lc, lc + 1)
    requires t == ticked1 + NotDropped(inputs, lc + 1, hi)
    ensures t == ticked + NotDropped(inputs, lc, hi)
  {
    NotDroppedSplit(inputs, lc, lc + 1, hi);
    assert ticked1 + NotDropped(inputs, lc + 1, hi)
        == ticked + (NotDropped(inputs, lc, lc + 1) + NotDropped(inputs, lc + 1, hi));
  }

  /**
   * One look at a command ticks it exactly when it is consumed and not
   * dropped; a look that stops the loop already satisfies LoopTicked.
   */
  lemma ConsumeOneTicks<I, S>(c: RemoteClient<I, S>, b: Budget, cueTimeMS: int, simulate: Simulate<I, S>, consumeOnStop: bool)
    requires ValidRemote(c) && Open(b) && c.recv.lastConsumedFrame < c.recv.lastRecvFrame
    ensures var o := ConsumeOne(c, b, cueTimeMS, simulate, consumeOnStop);
      var lc := c.recv.lastConsumedFrame;
      if o.stop.Some? then
        LoopTicked(c.recv.inputs, c.recv.lastRecvFrame, lc, b.ticked, (o.client, o.budget, o.stop.value), consumeOnStop)
      else
        o.client.recv.lastConsumedFrame == lc + 1 &&
        o.budget.ticked == b.ticked + NotDropped(c.recv.inputs, lc, lc + 1)
  {
    var lc := c.recv.lastConsumedFrame;
    assert NotDropped(c.recv.inputs, lc, lc) == [];
  }

  /** What the loop ticks (see LoopTicked). */
  lemma {:induction false} ConsumeLoopTicks<I, S>(c: RemoteClient<I, S>, b: Budget, cueTimeMS: int, simulate: Simulate<I, S>, consumeOnStop: bool)
    requires ValidRemote(c) && Open(b)
    ensures LoopTicked(c.recv.inputs, c.recv.lastRecvFrame, c.recv.lastConsumedFrame, b.ticked, ConsumeLoop(c, b, cueTimeMS, simulate, consumeOnStop), consumeOnStop)
    decreases c.recv.lastRecvFrame - c.recv.lastConsumedFrame
  {
    var lc := c.recv.lastConsumedFrame;
    if lc < c.recv.lastRecvFrame {
      var o := ConsumeOne(c, b, cueTimeMS, simulate, consumeOnStop);
      ConsumeOneTicks(c, b, cueTimeMS, simulate, consumeOnStop);
      if o.stop.None? {
        var r := ConsumeLoop(o.client, o.budget, cueTimeMS, simulate, consumeOnStop);
        assert ConsumeLoop(c, b, cueTimeMS, simulate, consumeOnStop) == r;
        ConsumeLoopTicks(o.client, o.budget, cueTimeMS, simulate, consumeOnStop);
        LoopTickedAfterOne(c.recv.inputs, c.recv.lastRecvFrame, lc, b.ticked, o.budget.ticked, r, consumeOnStop);
      } else {
        assert ConsumeLoop(c, b, cueTimeMS, simulate, consumeOnStop) == (o.client, o.budget, o.stop.value);
      }
    } else {
      assert NotDropped(c.recv.inputs, lc, lc) == [];
    }
  }

  /**
   * One client's share of an engine frame: the frame's time is banked,
   * then commands are consumed against it with a fresh budget.
   * `consumeOnStop` selects the pre-increment (true) or the
   * corrected consumption (false).
   */
  function ClientTick<I, S>(c: RemoteClient<I, S>, engineDeltaMS: real, cueTimeMS: int, simulate: Simulate<I, S>, consumeOnStop: bool): (r: (RemoteClient<I, S>, Budget, Stop))
    requires ValidRemote(c)
    ensures ValidRemote(r.0)
  {
    var banked := c.(unspentTimeMS := c.unspentTimeMS + engineDeltaMS);
    ConsumeLoop(banked, Budget(0, 0, [], []), cueTimeMS, simulate, consumeOnStop)
  }

  /** The client tick with the pre-increment: the command that stops the loop has already been consumed. */
  function ClientTickAsWritten<I, S>(c: RemoteClient<I, S>, engineDeltaMS: real, cueTimeMS: int, simulate: Simulate<I, S>): (r: (RemoteClient<I, S>, Budget, Stop))
    requires ValidRemote(c)
    ensures ValidRemote(r.0) && r.0.recv.lastRecvFrame == c.recv.lastRecvFrame
    ensures c.recv.lastConsumedFrame <= r.0.recv.lastConsumedFrame
    ensures Overrun(r.2) ==>
      && c.recv.lastConsumedFrame < r.0.recv.lastConsumedFrame
      && FrameBuffer.At(c.recv.inputs, r.0.recv.lastConsumedFrame).deltaMS != 0
      && r.1.ticked == NotDropped(c.recv.inputs, c.recv.lastConsumedFrame, r.0.recv.lastConsumedFrame - 1)
  {
    var banked := c.(unspentTimeMS := c.unspentTimeMS + engineDeltaMS);
    ConsumeLoopTicks(banked, Budget(0, 0, [], []), cueTimeMS, simulate, true);
    ClientTick(c, engineDeltaMS, cueTimeMS, simulate, true)
  }

  /** A client with one received command of 16 ms, nothing consumed, and nothing banked. */
  function WaitingClient(): (c: RemoteClient<int, int>)
    ensures ValidRemote(c)
  {
    var inputs := FrameBuffer.Put(FrameBuffer.Make(ServerInput.INDEPENDENT_INPUT_BUFFER_SIZE, ServerInput.InputFrame(0, 0)), 1, ServerInput.InputFrame(7, 16));
    RemoteClient(ServerInput.IndependentServer(0, 1, 0, 0, inputs), 0.0, FrameBuffer.Make(4, FrameData(0, 0)))
  }

  /**
   * The pre-increment loses a command: a 10 ms engine frame does
   * not cover the waiting 16 ms command, yet the command is consumed, so
   * the next frame never ticks it.
   */
  lemma AsWrittenConsumesUnticked(simulate: Simulate<int, int>)
    ensures var r := ClientTickAsWritten(WaitingClient(), 10.0, 0, simulate);
      r.2 == OutOfTime && r.0.recv.lastConsumedFrame == 1 && r.1.ticked == [] && r.0.recv.pendingFrame == 0
  {
    var c := WaitingClient();
    assert FrameBuffer.At(c.recv.inputs, 1).deltaMS == 16;
    assert TruncToInt(10.0) == 10;
  }

  /**
   * The corrected client tick: every command consumed in the frame is
   * ticked unless it was dropped, a command that does not fit waits for the
   * next frame, the steps stay within six and 200 ms, and the pending
   * frame and simulation time advance by exactly what was ticked.
   */
  lemma ClientTickTicksEveryCommand<I, S>(c: RemoteClient<I, S>, engineDeltaMS: real, cueTimeMS: int, simulate: Simulate<I, S>)
    ensures ValidRemote(c) ==>
      var r := ClientTick(c, engineDeltaMS, cueTimeMS, simulate, false);
      var lc := c.recv.lastConsumedFrame;
      var lc' := r.0.recv.lastConsumedFrame;
      lc <= lc' <= Max(lc, c.recv.lastRecvFrame) &&
      r.1.ticked == NotDropped(c.recv.inputs, lc, lc') &&
      (r.2 == NothingLeft ==> lc' >= c.recv.lastRecvFrame) &&
      (Overrun(r.2) ==> lc' < c.recv.lastRecvFrame && FrameBuffer.At(c.recv.inputs, lc' + 1).deltaMS != 0) &&
      r.1.totalFrames == |r.1.ticked| == |r.1.steps| <= MAX_REMOTE_CLIENT_STEPS_PER_FRAME &&
      0 <= r.1.totalMS <= MAX_REMOTE_CLIENT_TOTAL_MS_PER_FRAME &&
      r.0.recv.pendingFrame == c.recv.pendingFrame + r.1.totalFrames &&
      r.0.recv.totalSimTimeMS == c.recv.totalSimTimeMS + r.1.totalMS
  {
    if ValidRemote(c) {
      var banked := c.(unspentTimeMS := c.unspentTimeMS + engineDeltaMS);
      ConsumeLoopTicks(banked, Budget(0, 0, [], []), cueTimeMS, simulate, false);
      ConsumeLoopAccounts(banked, Budget(0, 0, [], []), cueTimeMS, simulate, false);
    }
  }

  /**
   * The service's Tick: the engine frame's seconds become milliseconds,
   * the cue time is the variable tick state's pending frame's total, and
   * every managed client is ticked; the others are left alone.
   */
  function TickRemote<I, S>(clients: seq<RemoteClient<I, S>>, managed: set<nat>, deltaSeconds: real, ticking: TickState.VariableTickState, simulate: Simulate<I, S>, consumeOnStop: bool): (r: seq<RemoteClient<I, S>>)
    requires forall i :: 0 <= i < |clients| ==> ValidRemote(clients[i])
    requires FrameBuffer.Valid(ticking.frames)
    ensures |r| == |clients|
    ensures forall i :: 0 <= i < |r| ==> ValidRemote(r[i])
    ensures forall i :: 0 <= i < |r| && i !in managed ==> r[i] == clients[i]
  {
    var cueTimeMS := FrameBuffer.At(ticking.frames, ticking.pendingFrame).totalMS;
    seq(|clients|, i requires 0 <= i < |clients| =>
      if i in managed then ClientTick(clients[i], deltaSeconds * 1000.0, cueTimeMS, simulate, consumeOnStop).0 else clients[i])
  }

  /** Under the corrected consumption, no managed client's consumption passes a command the service did not tick or keep. */
  lemma TickRemoteKeepsCommands<I, S>(clients: seq<RemoteClient<I, S>>, managed: set<nat>, deltaSeconds: real, ticking: TickState.VariableTickState, simulate: Simulate<I, S>, i: nat)
    requires forall j :: 0 <= j < |clients| ==> ValidRemote(clients[j])
    requires FrameBuffer.Valid(ticking.frames) && i < |clients| && i in managed
    ensures var r := TickRemote(clients, managed, deltaSeconds, ticking, simulate, false);
      var c := clients[i];
      var lc := c.recv.lastConsumedFrame;
      var lc' := r[i].recv.lastConsumedFrame;
      lc <= lc' && r[i].recv.pendingFrame - c.recv.pendingFrame == |NotDropped(c.recv.inputs, lc, lc')| <= MAX_REMOTE_CLIENT_STEPS_PER_FRAME
  {
    var cueTimeMS := FrameBuffer.At(ticking.frames, ticking.pendingFrame).totalMS;
    ClientTickTicksEveryCommand(clients[i], deltaSeconds * 1000.0, cueTimeMS, simulate);
  }
}
