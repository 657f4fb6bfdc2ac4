/**
 * The global tick states of the prediction world: the fixed-tick state
 * (fixed step length, pending frame, confirmed frame and the server-to-local
 * frame offset) and the variable-tick state (per-frame step and total time
 * in a frame buffer), with the time steps handed to simulations and to the
 * internal services.
 * Integer fields are unbounded: int32 overflow of frame or time arithmetic
 * is not modelled.
 */
module TickState {
  import opened Common
  import FrameBuffer

  /** FJoltNetSimTimeStep: what SimulationTick sees. */
  datatype NetSimTimeStep = NetSimTimeStep(stepMS: int, totalSimulationTime: int, frame: int)

  /** FJoltServiceTimeStep: local buffer frames and the end time, for the services. */
  datatype ServiceTimeStep = ServiceTimeStep(localInputFrame: int, localOutputFrame: int, endTotalSimulationTime: int)

  // ---------------------------------------------------------------------
  // Fixed tick
  // ---------------------------------------------------------------------

  datatype FixedTickState = FixedTickState(
    fixedStepMS: int,
    pendingFrame: int,
    confirmedFrame: int,
    offset: int,
    lastOffset: int,
    unspentTimeMS: real)

  /** The member initialisers. */
  function DefaultFixedTickState(): (s: FixedTickState)
    ensures s.pendingFrame == 0 && s.confirmedFrame == INDEX_NONE && s.offset == 0 && s.lastOffset == 0
    ensures s.fixedStepMS == 33 && s.unspentTimeMS == 0.0
  {
    FixedTickState(33, 0, INDEX_NONE, 0, 0, 0.0)
  }

  /** GetTotalSimTimeMS: the time at the start of the pending frame, in server frames. */
  function GetTotalSimTimeMS(s: FixedTickState): (r: int)
    ensures s.pendingFrame + s.offset == 0 ==> r == 0
    ensures r + s.fixedStepMS == (s.pendingFrame + s.offset + 1) * s.fixedStepMS
  {
    (s.pendingFrame + s.offset) * s.fixedStepMS
  }

  /** GetNextTimeStep: one fixed step from the current total, producing the next server frame. */
  function GetNextTimeStep(s: FixedTickState): (r: NetSimTimeStep)
    ensures r.stepMS == s.fixedStepMS
    ensures r.totalSimulationTime == GetTotalSimTimeMS(s)
    ensures r.frame == s.pendingFrame + 1 + s.offset
  {
    NetSimTimeStep(s.fixedStepMS, GetTotalSimTimeMS(s), s.pendingFrame + 1 + s.offset)
  }

  /** GetNextServiceTimeStep: reads the pending local frame, writes the next one. */
  function GetNextServiceTimeStep(s: FixedTickState): (r: ServiceTimeStep)
    ensures r.localInputFrame == s.pendingFrame && r.localOutputFrame == s.pendingFrame + 1
    ensures r.endTotalSimulationTime == (s.pendingFrame + s.offset + 1) * s.fixedStepMS
  {
    ServiceTimeStep(s.pendingFrame, s.pendingFrame + 1, (s.pendingFrame + s.offset + 1) * s.fixedStepMS)
  }

  /**
   * The service step and the simulation step describe the same tick: the
   * service end time is the simulation's start time plus its step, and the
   * simulation's server frame is the service's output frame shifted by the
   * offset.
   */
  lemma FixedStepsAgree(s: FixedTickState)
    ensures GetNextServiceTimeStep(s).endTotalSimulationTime ==
      GetNextTimeStep(s).totalSimulationTime + GetNextTimeStep(s).stepMS
    ensures GetNextTimeStep(s).frame == GetNextServiceTimeStep(s).localOutputFrame + s.offset
  {
  }

  /** After advancing the pending frame by one, the total time has grown by exactly one step. */
  lemma FixedTotalTimeAdvances(s: FixedTickState)
    ensures GetTotalSimTimeMS(s.(pendingFrame := s.pendingFrame + 1)) == GetTotalSimTimeMS(s) + s.fixedStepMS
  {
  }

  // ---------------------------------------------------------------------
  // Variable tick
  // ---------------------------------------------------------------------

  /** FFrame: the step length and the total time at the start of a frame. */
  datatype Frame = Frame(deltaMS: int, totalMS: int)

  const VARIABLE_FRAME_BUFFER_SIZE: nat := 64

  datatype VariableTickState = VariableTickState(
    frames: FrameBuffer.Buffer<Frame>,
    pendingFrame: nat,
    confirmedFrame: int,
    unspentTimeMS: real)

  /** The constructor: 64 zeroed frames, pending frame 0, nothing confirmed. */
  function DefaultVariableTickState(): (s: VariableTickState)
    ensures FrameBuffer.Valid(s.frames) && FrameBuffer.Capacity(s.frames) == VARIABLE_FRAME_BUFFER_SIZE
    ensures s.pendingFrame == 0 && s.confirmedFrame == INDEX_NONE && s.unspentTimeMS == 0.0
    ensures FrameBuffer.At(s.frames, 0) == Frame(0, 0)
  {
    VariableTickState(FrameBuffer.Make(VARIABLE_FRAME_BUFFER_SIZE, Frame(0, 0)), 0, INDEX_NONE, 0.0)
  }

  /** GetNextTimeStep(PendingFrameData). */
  function VariableNextTimeStep(s: VariableTickState, pending: Frame): (r: NetSimTimeStep)
    ensures r.stepMS == pending.deltaMS && r.totalSimulationTime == pending.totalMS
    ensures r.frame == s.pendingFrame + 1
  {
    NetSimTimeStep(pending.deltaMS, pending.totalMS, s.pendingFrame + 1)
  }

  /** GetNextTimeStep(): the same, reading the pending frame's entry from the buffer. */
  function VariableNextTimeStepFromBuffer(s: VariableTickState): (r: NetSimTimeStep)
    requires FrameBuffer.Valid(s.frames)
    ensures r == VariableNextTimeStep(s, FrameBuffer.At(s.frames, s.pendingFrame))
  {
    VariableNextTimeStep(s, FrameBuffer.At(s.frames, s.pendingFrame))
  }

  /** GetNextServiceTimeStep(PendingFrameData). */
  function VariableNextServiceTimeStep(s: VariableTickState, pending: Frame): (r: ServiceTimeStep)
    ensures r.localInputFrame == s.pendingFrame && r.localOutputFrame == s.pendingFrame + 1
    ensures r.endTotalSimulationTime - pending.deltaMS == pending.totalMS
  {
    ServiceTimeStep(s.pendingFrame, s.pendingFrame + 1, pending.totalMS + pending.deltaMS)
  }

  /** As with the fixed tick, both steps describe the same tick. */
  lemma VariableStepsAgree(s: VariableTickState, pending: Frame)
    ensures VariableNextServiceTimeStep(s, pending).endTotalSimulationTime ==
      VariableNextTimeStep(s, pending).totalSimulationTime + VariableNextTimeStep(s, pending).stepMS
    ensures VariableNextTimeStep(s, pending).frame == VariableNextServiceTimeStep(s, pending).localOutputFrame
  {
  }
}
