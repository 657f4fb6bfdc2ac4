/**
 * TJoltRemoteInputService: the server side of the fixed-tick input RPC.
 * A batch from a player controller carries one serialized input per
 * simulation; each simulation owned by that controller stores its input
 * at the client frame, filling the frames the stream skipped. Each tick,
 * every simulation consumes the input at its controller's last consumed
 * frame, and the controller's time dilation is set from how far the
 * buffered input is from the desired depth.
 * Input commands are opaque (`C`); `decode` stands for the model's own
 * NetSerialize of the input bytes.
 */
module InputService {
  import opened Common
  import FrameBuffer
  import BitStream
  import ServerInput
  import ReplicationProxy
  import PlayerController

  type Buffer<C> = FrameBuffer.Buffer<ServerInput.TimedInput<C>>

  /** A registered simulation: its id, the controller it takes input from (an opaque handle) and its receive data. */
  datatype Instance<C> = Instance(id: int, rpcHandler: Option<nat>, recv: ServerInput.FixedServer<C>)

  predicate ValidInstance<C>(inst: Instance<C>)
  {
    IsInt32(inst.id) && ServerInput.ValidFixed(inst.recv)
  }

  /** `Input.ID != MapIt.Key` compares a uint32 with an int32, so the id is taken as its bit pattern. */
  function InputKey(id: int): (k: nat)
    requires IsInt32(id)
    ensures id >= 0 ==> k == id
  {
    BitStream.Int32ToU32(id)
  }

  // ---------------------------------------------------------------------
  // Receiving
  // ---------------------------------------------------------------------

  /**
   * One matching input: frames from the controller's last received frame
   * up to the client frame repeat the frame before them (frame 0 is never
   * overwritten), then the client frame takes the command and the
   * interpolation time it arrived with.
   */
  function StoreInput<C>(b: Buffer<C>, handlerLastReceived: int, clientFrame: nat, interp: real, cmd: C): (r: Buffer<C>)
    requires FrameBuffer.Valid(b) && INDEX_NONE <= handlerLastReceived < clientFrame
    ensures FrameBuffer.Valid(r) && FrameBuffer.Capacity(r) == FrameBuffer.Capacity(b)
  {
    FrameBuffer.Put(ServerInput.CopyForward(b, handlerLastReceived + 1, clientFrame), clientFrame, ServerInput.TimedInput(interp, cmd))
  }

  /** A store puts the new entry at the client frame. */
  lemma StoreInputAtClientFrame<C>(b: Buffer<C>, handlerLastReceived: int, clientFrame: nat, interp: real, cmd: C)
    requires FrameBuffer.Valid(b) && INDEX_NONE <= handlerLastReceived < clientFrame
    ensures FrameBuffer.At(StoreInput(b, handlerLastReceived, clientFrame, interp, cmd), clientFrame) == ServerInput.TimedInput(interp, cmd)
  {
  }

  /**
   * Provided the client frame is less than a capacity past the controller's
   * last received frame, each skipped frame holds the entry of the last
   * received frame (frame 0's when nothing was received).
   */
  lemma StoreInputFillsGap<C>(b: Buffer<C>, handlerLastReceived: int, clientFrame: nat, interp: real, cmd: C, d: nat)
    requires FrameBuffer.Valid(b) && INDEX_NONE <= handlerLastReceived < clientFrame
    requires clientFrame - handlerLastReceived < FrameBuffer.Capacity(b)
    requires handlerLastReceived < d < clientFrame
    ensures FrameBuffer.At(StoreInput(b, handlerLastReceived, clientFrame, interp, cmd), d) == FrameBuffer.At(b, Max(handlerLastReceived, 0))
  {
    ServerInput.CopyForwardFills(b, handlerLastReceived + 1, clientFrame, d);
    FrameBuffer.NearbyFramesDistinctSlots(b, d, clientFrame);
  }

  /**
   * Received frames within a capacity of the client frame keep their
   * entries, and so does frame 0 when nothing had been received and the
   * client frame is not 0: the gap fill never writes frame 0.
   */
  lemma StoreInputKeeps<C>(b: Buffer<C>, handlerLastReceived: int, clientFrame: nat, interp: real, cmd: C, x: nat)
    requires FrameBuffer.Valid(b) && INDEX_NONE <= handlerLastReceived < clientFrame
    requires clientFrame - handlerLastReceived < FrameBuffer.Capacity(b)
    requires (x <= handlerLastReceived && clientFrame < x + FrameBuffer.Capacity(b)) ||
      (x == 0 && handlerLastReceived == INDEX_NONE && clientFrame > 0)
    ensures FrameBuffer.At(StoreInput(b, handlerLastReceived, clientFrame, interp, cmd), x) == FrameBuffer.At(b, x)
  {
    var from: nat := handlerLastReceived + 1;
    if x <= handlerLastReceived && clientFrame < x + FrameBuffer.Capacity(b) {
      ServerInput.CopyForwardKeepsEarlier(b, from, clientFrame, x);
    } else {
      ServerInput.CopyForwardFills(b, from, clientFrame, 0);
    }
    FrameBuffer.NearbyFramesDistinctSlots(b, x, clientFrame);
  }

  /** The index of the last input carrying the key, or -1. */
  function LastMatchIndex(inputs: seq<ReplicationProxy.ReplicatedInput>, key: nat): (k: int)
    ensures -1 <= k < |inputs|
    ensures k >= 0 ==> inputs[k].id == key
    ensures forall j :: k < j < |inputs| ==> inputs[j].id != key
    ensures k == -1 <==> forall j :: 0 <= j < |inputs| ==> inputs[j].id != key
  {
    if |inputs| == 0 then -1
    else if inputs[|inputs| - 1].id == key then |inputs| - 1
    else LastMatchIndex(inputs[..|inputs| - 1], key)
  }

  /** The loop over the batch for one simulation: each input with its key is stored in turn. */
  function ReceiveInputs<C>(
    recv: ServerInput.FixedServer<C>, inputs: seq<ReplicationProxy.ReplicatedInput>, key: nat,
    handlerLastReceived: int, clientFrame: nat, interp: real,
    decode: ReplicationProxy.ReplicatedInput -> C): (r: ServerInput.FixedServer<C>)
    requires ServerInput.ValidFixed(recv) && INDEX_NONE <= handlerLastReceived < clientFrame
    ensures ServerInput.ValidFixed(r) && FrameBuffer.Capacity(r.inputs) == FrameBuffer.Capacity(recv.inputs)
    ensures r.lastConsumedFrame == recv.lastConsumedFrame
    decreases |inputs|
  {
    if |inputs| == 0 then recv
    else
      var next := if inputs[0].id == key then
        recv.(inputs := StoreInput(recv.inputs, handlerLastReceived, clientFrame, interp, decode(inputs[0])), lastRecvFrame := clientFrame)
      else recv;
      ReceiveInputs(next, inputs[1..], key, handlerLastReceived, clientFrame, interp, decode)
  }

  /** A batch with no input for the simulation leaves its receive data alone. */
  lemma {:induction false} ReceiveNoMatch<C>(
    recv: ServerInput.FixedServer<C>, inputs: seq<ReplicationProxy.ReplicatedInput>, key: nat,
    handlerLastReceived: int, clientFrame: nat, interp: real,
    decode: ReplicationProxy.ReplicatedInput -> C)
    requires ServerInput.ValidFixed(recv) && INDEX_NONE <= handlerLastReceived < clientFrame
    requires forall j :: 0 <= j < |inputs| ==> inputs[j].id != key
    ensures ReceiveInputs(recv, inputs, key, handlerLastReceived, clientFrame, interp, decode) == recv
    decreases |inputs|
  {
    if |inputs| > 0 {
      assert inputs[0].id != key;
      ReceiveNoMatch(recv, inputs[1..], key, handlerLastReceived, clientFrame, interp, decode);
    }
  }

  /**
   * With several inputs for the same simulation the last one wins: the
   * client frame holds its command and becomes the last received frame.
   */
  lemma {:induction false} ReceiveLastWins<C>(
    recv: ServerInput.FixedServer<C>, inputs: seq<ReplicationProxy.ReplicatedInput>, key: nat,
    handlerLastReceived: int, clientFrame: nat, interp: real,
    decode: ReplicationProxy.ReplicatedInput -> C, k: nat)
    requires ServerInput.ValidFixed(recv) && INDEX_NONE <= handlerLastReceived < clientFrame
    requires k < |inputs| && inputs[k].id == key
    requires forall j :: k < j < |inputs| ==> inputs[j].id != key
    ensures var r := ReceiveInputs(recv, inputs, key, handlerLastReceived, clientFrame, interp, decode);
      r.lastRecvFrame == clientFrame &&
      FrameBuffer.At(r.inputs, clientFrame) == ServerInput.TimedInput(interp, decode(inputs[k]))
    decreases |inputs|
  {
    var next := if inputs[0].id == key then
      recv.(inputs := StoreInput(recv.inputs, handlerLastReceived, clientFrame, interp, decode(inputs[0])), lastRecvFrame := clientFrame)
    else recv;
    assert ReceiveInputs(recv, inputs, key, handlerLastReceived, clientFrame, interp, decode) ==
      ReceiveInputs(next, inputs[1..], key, handlerLastReceived, clientFrame, interp, decode);
    if k == 0 {
      forall j | 0 <= j < |inputs[1..]|
        ensures inputs[1..][j].id != key
      {
        assert inputs[1..][j] == inputs[j + 1];
      }
      ReceiveNoMatch(next, inputs[1..], key, handlerLastReceived, clientFrame, interp, decode);
    } else {
      forall j | k - 1 < j < |inputs[1..]|
        ensures inputs[1..][j].id != key
      {
        assert inputs[1..][j] == inputs[j + 1];
      }
      ReceiveLastWins(next, inputs[1..], key, handlerLastReceived, clientFrame, interp, decode, k - 1);
    }
  }

  /**
   * Once any input for the simulation arrives, every skipped frame holds the
   * input of the controller's last received frame (frame 0's when nothing
   * was received); the client frame must be less than a capacity past the
   * last received one.
   */
  lemma {:induction false} ReceiveFillsGap<C>(
    recv: ServerInput.FixedServer<C>, inputs: seq<ReplicationProxy.ReplicatedInput>, key: nat,
    handlerLastReceived: int, clientFrame: nat, interp: real,
    decode: ReplicationProxy.ReplicatedInput -> C, d: nat)
    requires ServerInput.ValidFixed(recv) && INDEX_NONE <= handlerLastReceived < clientFrame
    requires clientFrame - handlerLastReceived < FrameBuffer.Capacity(recv.inputs)
    requires LastMatchIndex(inputs, key) >= 0
    requires handlerLastReceived < d < clientFrame
    ensures FrameBuffer.At(ReceiveInputs(recv, inputs, key, handlerLastReceived, clientFrame, interp, decode).inputs, d) ==
      FrameBuffer.At(recv.inputs, Max(handlerLastReceived, 0))
    decreases |inputs|
  {
    var src := Max(handlerLastReceived, 0);
    var matched := inputs[0].id == key;
    var next := if matched then
      recv.(inputs := StoreInput(recv.inputs, handlerLastReceived, clientFrame, interp, decode(inputs[0])), lastRecvFrame := clientFrame)
    else recv;
    assert ReceiveInputs(recv, inputs, key, handlerLastReceived, clientFrame, interp, decode) ==
      ReceiveInputs(next, inputs[1..], key, handlerLastReceived, clientFrame, interp, decode);
    if LastMatchIndex(inputs[1..], key) >= 0 {
      ReceiveFillsGap(next, inputs[1..], key, handlerLastReceived, clientFrame, interp, decode, d);
      if matched {
        StoreInputKeeps(recv.inputs, handlerLastReceived, clientFrame, interp, decode(inputs[0]), src);
      }
    } else {
      ReceiveNoMatch(next, inputs[1..], key, handlerLastReceived, clientFrame, interp, decode);
      if matched {
        StoreInputFillsGap(recv.inputs, handlerLastReceived, clientFrame, interp, decode(inputs[0]), d);
      } else {
        assert false;
      }
    }
  }

  /** Received frames within a capacity of the client frame are never disturbed by a batch. */
  lemma {:induction false} ReceiveKeepsReceived<C>(
    recv: ServerInput.FixedServer<C>, inputs: seq<ReplicationProxy.ReplicatedInput>, key: nat,
    handlerLastReceived: int, clientFrame: nat, interp: real,
    decode: ReplicationProxy.ReplicatedInput -> C, x: nat)
    requires ServerInput.ValidFixed(recv) && INDEX_NONE <= handlerLastReceived < clientFrame
    requires clientFrame - handlerLastReceived < FrameBuffer.Capacity(recv.inputs)
    requires x <= handlerLastReceived && clientFrame < x + FrameBuffer.Capacity(recv.inputs)
    ensures FrameBuffer.At(ReceiveInputs(recv, inputs, key, handlerLastReceived, clientFrame, interp, decode).inputs, x) ==
      FrameBuffer.At(recv.inputs, x)
    decreases |inputs|
  {
    if |inputs| > 0 {
      var next := if inputs[0].id == key then
        recv.(inputs := StoreInput(recv.inputs, handlerLastReceived, clientFrame, interp, decode(inputs[0])), lastRecvFrame := clientFrame)
      else recv;
      assert ReceiveInputs(recv, inputs, key, handlerLastReceived, clientFrame, interp, decode) ==
        ReceiveInputs(next, inputs[1..], key, handlerLastReceived, clientFrame, interp, decode);
      if inputs[0].id == key {
        StoreInputKeeps(recv.inputs, handlerLastReceived, clientFrame, interp, decode(inputs[0]), x);
      }
      ReceiveKeepsReceived(next, inputs[1..], key, handlerLastReceived, clientFrame, interp, decode, x);
    }
  }

  /** OnFixedInputReceived for one simulation: only a simulation owned by the sending controller takes part. */
  function ReceiveForInstance<C>(
    inst: Instance<C>, inputs: seq<ReplicationProxy.ReplicatedInput>, handler: nat,
    handlerLastReceived: int, clientFrame: nat, interp: real,
    decode: ReplicationProxy.ReplicatedInput -> C): (r: Instance<C>)
    requires ValidInstance(inst) && INDEX_NONE <= handlerLastReceived < clientFrame
    ensures ValidInstance(r) && r.id == inst.id && r.rpcHandler == inst.rpcHandler
    ensures inst.rpcHandler != Some(handler) ==> r == inst
  {
    if inst.rpcHandler != Some(handler) then inst
    else inst.(recv := ReceiveInputs(inst.recv, inputs, InputKey(inst.id), handlerLastReceived, clientFrame, interp, decode))
  }

  /** OnFixedInputReceived: every registered simulation in turn. */
  function OnFixedInputReceived<C>(
    instances: seq<Instance<C>>, inputs: seq<ReplicationProxy.ReplicatedInput>, handler: nat,
    handlerLastReceived: int, clientFrame: nat, interp: real,
    decode: ReplicationProxy.ReplicatedInput -> C): (r: seq<Instance<C>>)
    requires forall i :: 0 <= i < |instances| ==> ValidInstance(instances[i])
    requires INDEX_NONE <= handlerLastReceived < clientFrame
    ensures |r| == |instances|
    ensures forall i :: 0 <= i < |r| ==>
      r[i] == ReceiveForInstance(instances[i], inputs, handler, handlerLastReceived, clientFrame, interp, decode)
  {
    seq(|instances|, i requires 0 <= i < |instances| =>
      ReceiveForInstance(instances[i], inputs, handler, handlerLastReceived, clientFrame, interp, decode))
  }

  /**
   * The receive contract per simulation: a simulation of another controller,
   * or one with no input in the batch, is untouched; otherwise the last
   * input carrying its id is stored at the client frame, which becomes its
   * last received frame.
   */
  lemma OnFixedInputReceivedSpec<C>(
    instances: seq<Instance<C>>, inputs: seq<ReplicationProxy.ReplicatedInput>, handler: nat,
    handlerLastReceived: int, clientFrame: nat, interp: real,
    decode: ReplicationProxy.ReplicatedInput -> C, i: nat)
    requires forall i :: 0 <= i < |instances| ==> ValidInstance(instances[i])
    requires INDEX_NONE <= handlerLastReceived < clientFrame
    requires i < |instances|
    ensures var r := OnFixedInputReceived(instances, inputs, handler, handlerLastReceived, clientFrame, interp, decode)[i];
      var inst := instances[i];
      var k := LastMatchIndex(inputs, InputKey(inst.id));
      (inst.rpcHandler != Some(handler) || k == -1 ==> r == inst) &&
      (inst.rpcHandler == Some(handler) && k >= 0 ==>
        r.recv.lastRecvFrame == clientFrame &&
        FrameBuffer.At(r.recv.inputs, clientFrame) == ServerInput.TimedInput(interp, decode(inputs[k])))
  {
    var inst := instances[i];
    if inst.rpcHandler == Some(handler) {
      var key := InputKey(inst.id);
      var k := LastMatchIndex(inputs, key);
      if k == -1 {
        ReceiveNoMatch(inst.recv, inputs, key, handlerLastReceived, clientFrame, interp, decode);
      } else {
        ReceiveLastWins(inst.recv, inputs, key, handlerLastReceived, clientFrame, interp, decode, k);
      }
    }
  }

  // ---------------------------------------------------------------------
  // Time dilation
  // ---------------------------------------------------------------------

  const DESIRED_BUFFERED_INPUTS: int := 4
  const TIME_DILATION_AMOUNT: real := 0.01
  const TIME_DILATION_ESCALATION_DECAY: real := 0.05
  const TIME_DILATION_ESCALATION_DECAY_MAX: real := 0.5
  const TIME_DILATION_MAX: real := 1.1
  const TIME_DILATION_MIN: real := 0.9

  /** The offset that stands for "unknown": INT8_MAX. */
  const UNKNOWN_OFFSET: int := 127

  function Abs(x: int): (r: nat)
    ensures r == x || r == -x
  {
    if x < 0 then -x else x
  }

  /**
   * How many frames the buffer holds beyond the desired depth; unknown
   * until the controller has both received and consumed a frame. The
   * desired depth is DesiredBufferedInputs plus the connection's jitter
   * and packet-loss frames, which the caller supplies.
   */
  function BufferOffset(lastReceived: int, lastConsumed: int, desiredBufferedFrames: int): (o: int)
    ensures lastReceived == INDEX_NONE || lastConsumed == INDEX_NONE ==> o == UNKNOWN_OFFSET
    ensures lastReceived != INDEX_NONE && lastConsumed != INDEX_NONE ==>
      o + desiredBufferedFrames == lastReceived - lastConsumed
  {
    if lastReceived == INDEX_NONE || lastConsumed == INDEX_NONE then UNKNOWN_OFFSET
    else (lastReceived - lastConsumed) - desiredBufferedFrames
  }

  /** The escalation factor: 1 - 0.05 |offset|, held between 0.5 and 1. */
  function Decay(offset: int): (d: real)
    ensures TIME_DILATION_ESCALATION_DECAY_MAX <= d <= 1.0
  {
    RealClamp(1.0 - TIME_DILATION_ESCALATION_DECAY * Abs(offset) as real, TIME_DILATION_ESCALATION_DECAY_MAX, 1.0)
  }

  /** The dilation before clamping: 1 + 0.01 * offset * decay. */
  function RawDilation(offset: int): real
  {
    1.0 + (TIME_DILATION_AMOUNT * offset as real) * Decay(offset)
  }

  /** The dilation for a buffer offset: neutral for 0 and for the unknown offset. */
  function OffsetDilation(offset: int): (x: real)
    ensures TIME_DILATION_MIN <= x <= TIME_DILATION_MAX
  {
    if offset != 0 && offset != UNKNOWN_OFFSET then
      RealClamp(RawDilation(offset), TIME_DILATION_MIN, TIME_DILATION_MAX)
    else 1.0
  }

  /** The dilation ProduceInput hands to the controller; exactly 1 when dilation is disabled. */
  function ComputeDilation(enabled: bool, lastReceived: int, lastConsumed: int, desiredBufferedFrames: int): (x: real)
    ensures TIME_DILATION_MIN <= x <= TIME_DILATION_MAX
  {
    if enabled then OffsetDilation(BufferOffset(lastReceived, lastConsumed, desiredBufferedFrames)) else 1.0
  }

  /**
   * The dilation is neutral exactly when dilation is disabled, when either
   * frame is unknown, or when the buffer is at its desired depth (or when
   * the offset happens to equal the unknown marker).
   */
  lemma DilationNeutral(enabled: bool, lastReceived: int, lastConsumed: int, desiredBufferedFrames: int)
    ensures var o := BufferOffset(lastReceived, lastConsumed, desiredBufferedFrames);
      ComputeDilation(enabled, lastReceived, lastConsumed, desiredBufferedFrames) == 1.0 <==>
      (!enabled || o == 0 || o == UNKNOWN_OFFSET)
  {
    var o := BufferOffset(lastReceived, lastConsumed, desiredBufferedFrames);
    if enabled && o != 0 && o != UNKNOWN_OFFSET {
      DilationDirection(o);
    }
  }

  /** Too much buffered input speeds the client up, too little slows it down. */
  lemma DilationDirection(offset: int)
    requires offset != UNKNOWN_OFFSET
    ensures offset > 0 ==> OffsetDilation(offset) > 1.0
    ensures offset < 0 ==> OffsetDilation(offset) < 1.0
  {
    var d := Decay(offset);
    if offset > 0 {
      assert TIME_DILATION_AMOUNT * offset as real > 0.0;
      assert (TIME_DILATION_AMOUNT * offset as real) * d > 0.0;
      assert RawDilation(offset) > 1.0;
    } else if offset < 0 {
      assert TIME_DILATION_AMOUNT * offset as real < 0.0;
      assert (TIME_DILATION_AMOUNT * offset as real) * d < 0.0;
      assert RawDilation(offset) < 1.0;
    }
  }

  /** The correction is symmetric: an excess and an equal shortfall dilate equally far from 1. */
  lemma DilationAntisymmetric(offset: int)
    requires offset != UNKNOWN_OFFSET && -offset != UNKNOWN_OFFSET
    ensures OffsetDilation(-offset) == 2.0 - OffsetDilation(offset)
  {
    assert Decay(-offset) == Decay(offset);
    assert RawDilation(-offset) == 2.0 - RawDilation(offset);
  }

  /** A larger excess never dilates less (apart from the unknown marker). */
  lemma DilationMonotone(a: int, b: int)
    requires a <= b && a != UNKNOWN_OFFSET && b != UNKNOWN_OFFSET
    ensures OffsetDilation(a) <= OffsetDilation(b)
  {
    EscalationMonotone(a, b);
    assert RawDilation(a) <= RawDilation(b);
    if a == 0 {
      DilationDirection(b);
    } else if b == 0 {
      DilationDirection(a);
    }
  }

  /** offset * decay grows with the offset. */
  lemma EscalationMonotone(a: int, b: int)
    requires a <= b
    ensures a as real * Decay(a) <= b as real * Decay(b)
  {
    if 0 <= a {
      NonNegativeEscalationMonotone(a, b);
    } else if b <= 0 {
      NonNegativeEscalationMonotone(-b, -a);
      assert Decay(-a) == Decay(a) && Decay(-b) == Decay(b);
    } else {
      assert a as real * Decay(a) < 0.0;
      assert b as real * Decay(b) > 0.0;
    }
  }

  lemma NonNegativeEscalationMonotone(a: nat, b: nat)
    requires a <= b
    ensures a as real * Decay(a) <= b as real * Decay(b)
  {
    var x, y := a as real, b as real;
    if b <= 10 {
      assert Decay(a) == 1.0 - 0.05 * x && Decay(b) == 1.0 - 0.05 * y;
      assert y * (1.0 - 0.05 * y) - x * (1.0 - 0.05 * x) == (y - x) * (1.0 - 0.05 * (x + y));
      assert x + y <= 20.0;
      MulNonneg(y - x, 1.0 - 0.05 * (x + y));
    } else if a >= 10 {
      assert Decay(a) == 0.5 && Decay(b) == 0.5;
    } else {
      assert Decay(a) == 1.0 - 0.05 * x && Decay(b) == 0.5;
      assert x * (1.0 - 0.05 * x) <= 5.0 by {
        assert 5.0 - x * (1.0 - 0.05 * x) == 0.05 * (x - 10.0) * (x - 10.0);
      }
    }
  }

  // ---------------------------------------------------------------------
  // Consuming
  // ---------------------------------------------------------------------

  /** What ProduceInput leaves behind for one simulation. */
  datatype Consumed<C> = Consumed(recv: ServerInput.FixedServer<C>, pendingInput: C, interpolationTimeMS: real, handler: PlayerController.Controller)

  /**
   * ProduceInput for one simulation with a controller: the receive data
   * records the controller's consumed frame, the simulation's pending input
   * and interpolation time are read from that frame's slot, and the
   * controller is given the dilation computed from its buffer. A simulation
   * without a controller is skipped (None).
   */
  function ProduceInput<C>(
    recv: ServerInput.FixedServer<C>, handler: Option<PlayerController.Controller>,
    enabled: bool, desiredBufferedFrames: int): (r: Option<Consumed<C>>)
    requires ServerInput.ValidFixed(recv)
    requires handler.Some? ==> handler.value.lastConsumedFrame >= 0
    ensures r.None? <==> handler.None?
    ensures r.Some? ==>
      var h := handler.value;
      var entry := FrameBuffer.At(recv.inputs, h.lastConsumedFrame);
      r.value.recv == recv.(lastConsumedFrame := h.lastConsumedFrame) &&
      r.value.pendingInput == entry.cmd && r.value.interpolationTimeMS == entry.interpolationMS &&
      r.value.handler == PlayerController.UpdateTimeDilation(h, ComputeDilation(enabled, h.lastReceivedFrame, h.lastConsumedFrame, desiredBufferedFrames))
  {
    match handler
    case None => None
    case Some(h) =>
      var entry := FrameBuffer.At(recv.inputs, h.lastConsumedFrame);
      Some(Consumed(
        recv.(lastConsumedFrame := h.lastConsumedFrame), entry.cmd, entry.interpolationMS,
        PlayerController.UpdateTimeDilation(h, ComputeDilation(enabled, h.lastReceivedFrame, h.lastConsumedFrame, desiredBufferedFrames))))
  }

  /**
   * End to end: an input received for a frame is the one the simulation
   * consumes when its controller's consumed frame reaches that frame, with
   * the interpolation time it arrived with, provided no later batch has
   * reused the slot.
   */
  lemma ReceivedInputIsConsumed<C>(
    inst: Instance<C>, inputs: seq<ReplicationProxy.ReplicatedInput>, handler: nat, controller: PlayerController.Controller,
    clientFrame: nat, interp: real, decode: ReplicationProxy.ReplicatedInput -> C,
    enabled: bool, desiredBufferedFrames: int)
    requires ValidInstance(inst) && inst.rpcHandler == Some(handler)
    requires INDEX_NONE <= controller.lastReceivedFrame < clientFrame
    requires LastMatchIndex(inputs, InputKey(inst.id)) >= 0
    ensures var received := ReceiveForInstance(inst, inputs, handler, controller.lastReceivedFrame, clientFrame, interp, decode);
      var consumer := controller.(lastConsumedFrame := clientFrame);
      var c := ProduceInput(received.recv, Some(consumer), enabled, desiredBufferedFrames);
      c.Some? && c.value.pendingInput == decode(inputs[LastMatchIndex(inputs, InputKey(inst.id))]) &&
      c.value.interpolationTimeMS == interp
  {
    OnFixedInputReceivedSpec([inst], inputs, handler, controller.lastReceivedFrame, clientFrame, interp, decode, 0);
  }
}
