/**
 * UJoltNetworkPredictionPlayerControllerComponent: the per-connection
 * record of the fixed-tick input stream. On the client it queues each
 * simulation's serialized input and sends the batch; on the server it holds
 * the last received and last consumed client frames that every simulation
 * of that connection shares, and the time dilation the server replicates
 * back to the client.
 */
module PlayerController {
  import opened Common
  import ReplicationProxy

  /** The maximum buffer size the world manager passes when it advances the consumed frame. */
  const WORLD_MANAGER_MAX_BUFFER_SIZE: int := 32

  /** After an overflow the consumed frame is put this many frames behind the newest one. */
  const OVERFLOW_RESYNC_FRAMES: int := 7

  /** After a starvation the consumed frame is put this many frames behind the newest one. */
  const STARVATION_RESYNC_FRAMES: int := 2

  datatype Controller = Controller(
    isAuthority: bool,
    lastReceivedFrame: int,
    lastConsumedFrame: int,
    interpolationTimeMS: real,
    inputsToSend: seq<ReplicationProxy.ReplicatedInput>,
    /** The replicated FJoltSimTimeDilation, as its stored 1/10000 units. */
    timeDilation: nat)

  /** The member initialisers. */
  function InitialController(isAuthority: bool): (c: Controller)
    ensures c.lastReceivedFrame == INDEX_NONE && c.lastConsumedFrame == INDEX_NONE
    ensures c.interpolationTimeMS == 0.0 && c.inputsToSend == []
    ensures ReplicationProxy.Dequantize(c.timeDilation) == 1.0
  {
    ReplicationProxy.DefaultDilationIsOne();
    Controller(isAuthority, INDEX_NONE, INDEX_NONE, 0.0, [], ReplicationProxy.DEFAULT_STORED_DILATION)
  }

  // ---------------------------------------------------------------------
  // Server: consuming the buffered input
  // ---------------------------------------------------------------------

  /**
   * AdvanceLastConsumedFrame: nothing before the first input arrives; on
   * starvation fall back two frames behind the newest (not below 0); when
   * too far behind jump to seven frames behind the newest; otherwise
   * consume the next frame.
   */
  function AdvanceLastConsumedFrame(c: Controller, maxBufferSize: int): (r: Controller)
    ensures r.lastReceivedFrame == c.lastReceivedFrame
    ensures r == c.(lastConsumedFrame := r.lastConsumedFrame)
    ensures c.lastReceivedFrame == INDEX_NONE ==> r == c
    ensures c.lastReceivedFrame != INDEX_NONE && c.lastConsumedFrame >= c.lastReceivedFrame ==>
      r.lastConsumedFrame == Max(c.lastReceivedFrame - STARVATION_RESYNC_FRAMES, 0)
    ensures (c.lastReceivedFrame != INDEX_NONE && c.lastConsumedFrame < c.lastReceivedFrame &&
      c.lastReceivedFrame - c.lastConsumedFrame > Max(2, maxBufferSize)) ==>
      r.lastConsumedFrame == c.lastReceivedFrame - OVERFLOW_RESYNC_FRAMES
    ensures (c.lastReceivedFrame != INDEX_NONE && c.lastConsumedFrame < c.lastReceivedFrame &&
      c.lastReceivedFrame - c.lastConsumedFrame <= Max(2, maxBufferSize)) ==>
      r.lastConsumedFrame == c.lastConsumedFrame + 1
  {
    if c.lastReceivedFrame == INDEX_NONE then c
    else if c.lastConsumedFrame >= c.lastReceivedFrame then
      c.(lastConsumedFrame := Max(c.lastReceivedFrame - STARVATION_RESYNC_FRAMES, 0))
    else if c.lastReceivedFrame - c.lastConsumedFrame > Max(2, maxBufferSize) then
      c.(lastConsumedFrame := c.lastReceivedFrame - OVERFLOW_RESYNC_FRAMES)
    else c.(lastConsumedFrame := c.lastConsumedFrame + 1)
  }

  /**
   * Once input has arrived, one advance puts the consumed frame inside the
   * window [received - max(2, size), received] and never below 0, whatever
   * it was before, as long as the buffer size is at least the overflow
   * resync distance (the world manager passes 32).
   */
  lemma AdvanceStaysInWindow(c: Controller, maxBufferSize: int)
    requires c.lastReceivedFrame >= 0 && c.lastConsumedFrame >= INDEX_NONE
    requires maxBufferSize >= OVERFLOW_RESYNC_FRAMES
    ensures var r := AdvanceLastConsumedFrame(c, maxBufferSize);
      0 <= r.lastConsumedFrame <= r.lastReceivedFrame &&
      r.lastReceivedFrame - r.lastConsumedFrame <= Max(2, maxBufferSize)
  {
  }

  /** Within the window and short of the newest frame, an advance consumes exactly one frame. */
  lemma AdvanceInWindowConsumesOne(c: Controller, maxBufferSize: int)
    requires c.lastReceivedFrame >= 0
    requires c.lastReceivedFrame - Max(2, maxBufferSize) <= c.lastConsumedFrame < c.lastReceivedFrame
    ensures AdvanceLastConsumedFrame(c, maxBufferSize).lastConsumedFrame == c.lastConsumedFrame + 1
  {
  }

  /**
   * A buffer size below the resync distance lets an overflow put the
   * consumed frame before frame 0: received 3, consumed INDEX_NONE, size 2.
   */
  lemma SmallBufferCanUnderflow()
    ensures AdvanceLastConsumedFrame(Controller(false, 3, INDEX_NONE, 0.0, [], 0), 2).lastConsumedFrame == -4
  {
  }

  // ---------------------------------------------------------------------
  // Time dilation
  // ---------------------------------------------------------------------

  /** UpdateTimeDilation: only the authority stores a new dilation. */
  function UpdateTimeDilation(c: Controller, dilation: real): (r: Controller)
    ensures !c.isAuthority ==> r == c
    ensures c.isAuthority ==> r == c.(timeDilation := ReplicationProxy.Quantize(dilation))
  {
    if !c.isAuthority then c else c.(timeDilation := ReplicationProxy.Quantize(dilation))
  }

  /**
   * OnRep_TimeDilation: on a client with a world manager, the manager's
   * dilation becomes the replicated value; the authority ignores it.
   */
  function OnRepTimeDilation(c: Controller, managerDilation: Option<real>): (r: Option<real>)
    ensures c.isAuthority || managerDilation.None? ==> r == managerDilation
    ensures !c.isAuthority && managerDilation.Some? ==> r == Some(ReplicationProxy.Dequantize(c.timeDilation))
  {
    if c.isAuthority then managerDilation
    else if managerDilation.Some? then Some(ReplicationProxy.Dequantize(c.timeDilation))
    else managerDilation
  }

  /**
   * The server's dilation reaches the client's world manager through
   * replication, quantized: within half a unit of 1/10000 for dilations
   * in the representable range.
   */
  lemma DilationReachesClient(server: Controller, client: Controller, dilation: real, manager: real)
    requires server.isAuthority && !client.isAuthority
    requires 0.0 <= dilation * ReplicationProxy.DILATION_SCALE <= ReplicationProxy.UINT16_MAX as real
    ensures var replicated := client.(timeDilation := UpdateTimeDilation(server, dilation).timeDilation);
      var got := OnRepTimeDilation(replicated, Some(manager));
      got.Some? && -0.5 < (got.value - dilation) * ReplicationProxy.DILATION_SCALE <= 0.5
  {
    ReplicationProxy.QuantizeError(dilation);
  }

  // ---------------------------------------------------------------------
  // Client: the input send list
  // ---------------------------------------------------------------------

  /** The Server_ReceivedInput call: the frame, the interpolation time and the batch. */
  datatype ServerInputRpc = ServerInputRpc(frame: int, interpolationTimeMS: real, inputs: seq<ReplicationProxy.ReplicatedInput>)

  /** AddInputToSend: appends one entry. */
  function AddInputToSend(c: Controller, id: nat, dataSize: nat, data: seq<Byte>): (r: Controller)
    ensures r == c.(inputsToSend := r.inputsToSend)
    ensures |r.inputsToSend| == |c.inputsToSend| + 1
    ensures r.inputsToSend[..|c.inputsToSend|] == c.inputsToSend
    ensures r.inputsToSend[|c.inputsToSend|] == ReplicationProxy.ReplicatedInput(id, dataSize, data)
  {
    c.(inputsToSend := c.inputsToSend + [ReplicationProxy.ReplicatedInput(id, dataSize, data)])
  }

  /** SendServerRpc: sends the batch, then resets the list. */
  function SendServerRpc(c: Controller, frame: int): (r: (ServerInputRpc, Controller))
    ensures r.0.frame == frame && r.0.interpolationTimeMS == c.interpolationTimeMS
    ensures r.0.inputs == c.inputsToSend
    ensures r.1 == c.(inputsToSend := [])
  {
    (ServerInputRpc(frame, c.interpolationTimeMS, c.inputsToSend), c.(inputsToSend := []))
  }

  /** Queues a sequence of inputs one by one, in order. */
  function AddAll(c: Controller, inputs: seq<ReplicationProxy.ReplicatedInput>): (r: Controller)
    ensures r == c.(inputsToSend := r.inputsToSend)
    decreases |inputs|
  {
    if |inputs| == 0 then c
    else AddAll(AddInputToSend(c, inputs[0].id, inputs[0].dataSize, inputs[0].data), inputs[1..])
  }

  /**
   * Between two sends the batch is exactly the inputs queued since the
   * first, in the order they were queued, and the list is empty again.
   */
  lemma {:induction false} SendCarriesQueuedInputs(c: Controller, frame: int, inputs: seq<ReplicationProxy.ReplicatedInput>)
    ensures var sent := SendServerRpc(AddAll(c, inputs), frame);
      sent.0.inputs == c.inputsToSend + inputs && sent.1.inputsToSend == []
    decreases |inputs|
  {
    if |inputs| > 0 {
      var e := inputs[0];
      var c' := AddInputToSend(c, e.id, e.dataSize, e.data);
      SendCarriesQueuedInputs(c', frame, inputs[1..]);
      assert c'.inputsToSend + inputs[1..] == c.inputsToSend + inputs;
    }
  }
}
