/**
 * The server side of the client-to-server input stream: the AP client sends
 * its last NumInputsPerSend input commands ending before its pending frame;
 * the server stores the ones it has not seen in its input buffer, filling
 * frames the stream skipped. Commands are opaque (`C`); each message is
 * modelled after decoding: its end frame and its entries, one per frame.
 */
module ServerInput {
  import opened Common
  import FrameBuffer

  const NUM_INPUTS_PER_SEND: nat := 6
  const FIXED_INPUT_BUFFER_SIZE: nat := 32
  const INDEPENDENT_INPUT_BUFFER_SIZE: nat := 16

  // ---------------------------------------------------------------------
  // Buffer helpers
  // ---------------------------------------------------------------------

  /**
   * The fixed-tick gap fill: for each dropped frame d in [from, to), in
   * ascending order, d > 0 takes frame d - 1's entry.
   */
  function CopyForward<E>(b: FrameBuffer.Buffer<E>, from: nat, to: nat): (r: FrameBuffer.Buffer<E>)
    requires FrameBuffer.Valid(b)
    ensures FrameBuffer.Valid(r) && FrameBuffer.Capacity(r) == FrameBuffer.Capacity(b)
    decreases (to as int) - (from as int)
  {
    if to <= from then b
    else
      var prev := CopyForward(b, from, to - 1);
      if to - 1 > 0 then FrameBuffer.Put(prev, to - 1, FrameBuffer.At(prev, to - 2)) else prev
  }

  /** Frames before the gap, within a capacity of its end, keep their entries. */
  lemma {:induction false} CopyForwardKeepsEarlier<E>(b: FrameBuffer.Buffer<E>, from: nat, to: nat, x: nat)
    requires FrameBuffer.Valid(b)
    requires x < from && to <= x + FrameBuffer.Capacity(b)
    ensures FrameBuffer.At(CopyForward(b, from, to), x) == FrameBuffer.At(b, x)
    decreases (to as int) - (from as int)
  {
    if to > from {
      CopyForwardKeepsEarlier(b, from, to - 1, x);
      if to - 1 > 0 {
        FrameBuffer.NearbyFramesDistinctSlots(b, x, to - 1);
      }
    }
  }

  /**
   * Every dropped frame ends up holding the entry of the frame before the
   * gap (frame 0's own entry when the gap starts at 0), provided the gap is
   * shorter than the buffer.
   */
  lemma {:induction false} CopyForwardFills<E>(b: FrameBuffer.Buffer<E>, from: nat, to: nat, d: int)
    requires FrameBuffer.Valid(b)
    requires to < from + FrameBuffer.Capacity(b)
    requires from <= d < to
    ensures FrameBuffer.At(CopyForward(b, from, to), d) == FrameBuffer.At(b, if from == 0 then 0 else from - 1)
    decreases (to as int) - (from as int)
  {
    var src := if from == 0 then 0 else from - 1;
    var prev := CopyForward(b, from, to - 1);
    if d < to - 1 {
      CopyForwardFills(b, from, to - 1, d);
      if to - 1 > 0 {
        FrameBuffer.NearbyFramesDistinctSlots(b, d, to - 1);
      }
    } else if to - 1 > 0 {
      // d == to - 1: it takes frame to - 2's entry, which is what the loop copies.
      if to - 2 >= from {
        CopyForwardFills(b, from, to - 1, to - 2);
      } else if from > 0 {
        CopyForwardKeepsEarlier(b, from, to - 1, from - 1);
      }
    } else {
      assert from == 0 && d == 0;
    }
  }

  /** An entry of the independent-tick input buffer: the command and the frame's delta time. */
  datatype InputFrame<C> = InputFrame(cmd: C, deltaMS: int)

  /** The independent-tick gap fill: every dropped frame in [from, to) gets delta 0. */
  function ZeroDeltas<C>(b: FrameBuffer.Buffer<InputFrame<C>>, from: nat, to: nat): (r: FrameBuffer.Buffer<InputFrame<C>>)
    requires FrameBuffer.Valid(b)
    ensures FrameBuffer.Valid(r) && FrameBuffer.Capacity(r) == FrameBuffer.Capacity(b)
    decreases (to as int) - (from as int)
  {
    if to <= from then b
    else
      var prev := ZeroDeltas(b, from, to - 1);
      FrameBuffer.Put(prev, to - 1, FrameBuffer.At(prev, to - 1).(deltaMS := 0))
  }

  /** Zeroing touches only delta times, zeroes every dropped frame's, and leaves nearby earlier frames alone. */
  lemma {:induction false} ZeroDeltasSpec<C>(b: FrameBuffer.Buffer<InputFrame<C>>, from: nat, to: nat)
    requires FrameBuffer.Valid(b)
    ensures forall g: nat :: FrameBuffer.At(ZeroDeltas(b, from, to), g).cmd == FrameBuffer.At(b, g).cmd
    ensures forall d: nat :: from <= d < to ==> FrameBuffer.At(ZeroDeltas(b, from, to), d).deltaMS == 0
    ensures forall x: nat :: (x < from && to <= x + FrameBuffer.Capacity(b) ==>
      FrameBuffer.At(ZeroDeltas(b, from, to), x) == FrameBuffer.At(b, x))
    decreases (to as int) - (from as int)
  {
    if to > from {
      var prev := ZeroDeltas(b, from, to - 1);
      ZeroDeltasSpec(b, from, to - 1);
      var r := ZeroDeltas(b, from, to);
      forall g: nat ensures FrameBuffer.At(r, g).cmd == FrameBuffer.At(b, g).cmd {
        if FrameBuffer.Slot(prev, g) == FrameBuffer.Slot(prev, to - 1) {
          assert FrameBuffer.At(prev, g) == FrameBuffer.At(prev, to - 1);
        }
      }
      forall x: nat | x < from && to <= x + FrameBuffer.Capacity(b)
        ensures FrameBuffer.At(r, x) == FrameBuffer.At(b, x)
      {
        FrameBuffer.NearbyFramesDistinctSlots(b, x, to - 1);
      }
    }
  }

  // ---------------------------------------------------------------------
  // Independent tick (TIndependentTickReplicator_Server)
  // ---------------------------------------------------------------------

  /** TJoltServerRecvData_Independent's bookkeeping. */
  datatype IndependentServer<C> = IndependentServer(
    lastConsumedFrame: int,
    lastRecvFrame: int,
    pendingFrame: int,
    totalSimTimeMS: int,
    inputs: FrameBuffer.Buffer<InputFrame<C>>)

  predicate ValidIndependent<C>(s: IndependentServer<C>)
  {
    s.lastConsumedFrame >= INDEX_NONE && s.lastRecvFrame >= INDEX_NONE && FrameBuffer.Valid(s.inputs)
  }

  /** The constructor and the defaults the world manager sets on registration. */
  function InitialIndependent<C>(empty: C): (s: IndependentServer<C>)
    ensures ValidIndependent(s) && FrameBuffer.Capacity(s.inputs) == INDEPENDENT_INPUT_BUFFER_SIZE
    ensures s.lastConsumedFrame == INDEX_NONE && s.lastRecvFrame == INDEX_NONE
    ensures s.pendingFrame == 0 && s.totalSimTimeMS == 0
  {
    IndependentServer(INDEX_NONE, INDEX_NONE, 0, 0, FrameBuffer.Make(INDEPENDENT_INPUT_BUFFER_SIZE, InputFrame(empty, 0)))
  }

  /**
   * The receive loop over one message's entries, the first for `frame`:
   * frames already received are read and dropped; a new frame zeroes the
   * delta of every frame skipped since the last one received, is stored,
   * and becomes the last received frame.
   */
  function IndependentRecvFrames<C>(s: IndependentServer<C>, frame: int, entries: seq<InputFrame<C>>): (r: IndependentServer<C>)
    requires ValidIndependent(s)
    ensures ValidIndependent(r) && FrameBuffer.Capacity(r.inputs) == FrameBuffer.Capacity(s.inputs)
    ensures r.lastConsumedFrame == s.lastConsumedFrame && r.pendingFrame == s.pendingFrame
    ensures r.lastRecvFrame >= s.lastRecvFrame
    ensures |entries| == 0 ==> r == s
    ensures |entries| > 0 ==> r.lastRecvFrame == Max(s.lastRecvFrame, frame + |entries| - 1)
    decreases |entries|
  {
    if |entries| == 0 then s
    else if frame <= s.lastRecvFrame then IndependentRecvFrames(s, frame + 1, entries[1..])
    else
      var zeroed := ZeroDeltas(s.inputs, s.lastRecvFrame + 1, frame);
      IndependentRecvFrames(s.(inputs := FrameBuffer.Put(zeroed, frame, entries[0]), lastRecvFrame := frame), frame + 1, entries[1..])
  }

  /** Frames at or before the last received one, within a capacity of the message's end, are untouched. */
  lemma {:induction false} IndependentRecvKeepsReceived<C>(s: IndependentServer<C>, frame: int, entries: seq<InputFrame<C>>, x: nat)
    requires ValidIndependent(s)
    requires x <= s.lastRecvFrame && frame + |entries| <= x + FrameBuffer.Capacity(s.inputs)
    ensures FrameBuffer.At(IndependentRecvFrames(s, frame, entries).inputs, x) == FrameBuffer.At(s.inputs, x)
    decreases |entries|
  {
    if |entries| > 0 {
      if frame <= s.lastRecvFrame {
        IndependentRecvKeepsReceived(s, frame + 1, entries[1..], x);
      } else {
        var zeroed := ZeroDeltas(s.inputs, s.lastRecvFrame + 1, frame);
        var s' := s.(inputs := FrameBuffer.Put(zeroed, frame, entries[0]), lastRecvFrame := frame);
        IndependentRecvKeepsReceived(s', frame + 1, entries[1..], x);
        ZeroDeltasSpec(s.inputs, s.lastRecvFrame + 1, frame);
        FrameBuffer.NearbyFramesDistinctSlots(s.inputs, x, frame);
      }
    }
  }

  /** The message's first frame, when new, holds its entry afterwards. */
  lemma IndependentRecvStoresFirst<C>(s: IndependentServer<C>, frame: int, entries: seq<InputFrame<C>>)
    requires ValidIndependent(s)
    requires 0 < |entries| <= FrameBuffer.Capacity(s.inputs) && frame > s.lastRecvFrame
    ensures FrameBuffer.At(IndependentRecvFrames(s, frame, entries).inputs, frame) == entries[0]
  {
    var zeroed := ZeroDeltas(s.inputs, s.lastRecvFrame + 1, frame);
    var s' := s.(inputs := FrameBuffer.Put(zeroed, frame, entries[0]), lastRecvFrame := frame);
    IndependentRecvKeepsReceived(s', frame + 1, entries[1..], frame);
  }

  /** Every frame the message brings that is newer than the last received one is stored with its entry. */
  lemma {:induction false} IndependentRecvStores<C>(s: IndependentServer<C>, frame: int, entries: seq<InputFrame<C>>, g: int)
    requires ValidIndependent(s)
    requires |entries| <= FrameBuffer.Capacity(s.inputs)
    requires frame <= g < frame + |entries| && g > s.lastRecvFrame
    ensures FrameBuffer.At(IndependentRecvFrames(s, frame, entries).inputs, g) == entries[g - frame]
    decreases |entries|
  {
    if frame <= s.lastRecvFrame {
      IndependentRecvStores(s, frame + 1, entries[1..], g);
    } else {
      var zeroed := ZeroDeltas(s.inputs, s.lastRecvFrame + 1, frame);
      var s' := s.(inputs := FrameBuffer.Put(zeroed, frame, entries[0]), lastRecvFrame := frame);
      if g == frame {
        IndependentRecvStoresFirst(s, frame, entries);
      } else {
        IndependentRecvStores(s', frame + 1, entries[1..], g);
      }
    }
  }

  /**
   * When the first entry is past a gap, each skipped frame keeps its
   * command and gets delta time 0, provided the whole message lands within
   * a capacity of the gap's start.
   */
  lemma IndependentRecvZeroesDropped<C>(s: IndependentServer<C>, frame: int, entries: seq<InputFrame<C>>, d: int)
    requires ValidIndependent(s)
    requires |entries| > 0 && s.lastRecvFrame < d < frame
    requires frame + |entries| <= s.lastRecvFrame + 1 + FrameBuffer.Capacity(s.inputs)
    ensures FrameBuffer.At(IndependentRecvFrames(s, frame, entries).inputs, d).deltaMS == 0
    ensures FrameBuffer.At(IndependentRecvFrames(s, frame, entries).inputs, d).cmd == FrameBuffer.At(s.inputs, d).cmd
  {
    var zeroed := ZeroDeltas(s.inputs, s.lastRecvFrame + 1, frame);
    var s' := s.(inputs := FrameBuffer.Put(zeroed, frame, entries[0]), lastRecvFrame := frame);
    IndependentRecvKeepsReceived(s', frame + 1, entries[1..], d);
    AcceptZeroesGap(s.inputs, s.lastRecvFrame + 1, frame, entries[0], d);
  }

  /** One accepted frame: a skipped frame keeps its command with delta 0. */
  lemma AcceptZeroesGap<C>(b: FrameBuffer.Buffer<InputFrame<C>>, from: nat, frame: nat, e: InputFrame<C>, d: nat)
    requires FrameBuffer.Valid(b)
    requires from <= d < frame < d + FrameBuffer.Capacity(b)
    ensures FrameBuffer.At(FrameBuffer.Put(ZeroDeltas(b, from, frame), frame, e), d).deltaMS == 0
    ensures FrameBuffer.At(FrameBuffer.Put(ZeroDeltas(b, from, frame), frame, e), d).cmd == FrameBuffer.At(b, d).cmd
  {
    FrameBuffer.NearbyFramesDistinctSlots(b, d, frame);
    ZeroDeltasSpec(b, from, frame);
  }

  /**
   * The gap reset: when the message starts beyond the frame after the last
   * consumed one, consumption and reception both restart just before it.
   */
  function IndependentResetOnGap<C>(s: IndependentServer<C>, startFrame: int): (r: IndependentServer<C>)
    requires ValidIndependent(s)
    ensures ValidIndependent(r) && r.inputs == s.inputs
    ensures s.lastConsumedFrame + 1 < startFrame ==>
      r.lastConsumedFrame == startFrame - 1 && r.lastRecvFrame == startFrame - 1
    ensures s.lastConsumedFrame + 1 >= startFrame ==> r == s
  {
    if s.lastConsumedFrame + 1 < startFrame
    then s.(lastConsumedFrame := startFrame - 1, lastRecvFrame := startFrame - 1)
    else s
  }

  /** TIndependentTickReplicator_Server::NetRecv on a message ending before `endFrame`. */
  function IndependentNetRecv<C>(s: IndependentServer<C>, endFrame: int, entries: seq<InputFrame<C>>): (r: IndependentServer<C>)
    requires ValidIndependent(s)
    ensures ValidIndependent(r) && FrameBuffer.Capacity(r.inputs) == FrameBuffer.Capacity(s.inputs)
    ensures |entries| > 0 ==>
      r.lastRecvFrame == Max(IndependentResetOnGap(s, endFrame - |entries|).lastRecvFrame, endFrame - 1)
  {
    IndependentRecvFrames(IndependentResetOnGap(s, endFrame - |entries|), endFrame - |entries|, entries)
  }

  /**
   * The reset is not monotone: with frames received but not yet consumed,
   * a message starting past the consumed frame moves the last received
   * frame back, discarding the unconsumed commands after it.
   */
  lemma IndependentResetCanRewindReceived<C>(empty: C)
    ensures var s := InitialIndependent(empty).(lastConsumedFrame := 10, lastRecvFrame := 20);
      IndependentNetRecv(s, 18, seq(NUM_INPUTS_PER_SEND, _ => InputFrame(empty, 16))).lastRecvFrame == 17
  {
  }

  /** The client's side (NetSend): entries for [pending - n, pending), empty with delta 0 before frame 0. */
  function IndependentClientEntries<C>(history: seq<InputFrame<C>>, pending: int, n: nat, empty: C): (r: seq<InputFrame<C>>)
    requires pending <= |history|
    ensures |r| == n
    ensures forall i :: 0 <= i < n && pending - n + i >= 0 ==> r[i] == history[pending - n + i]
  {
    seq(n, i requires 0 <= i < n => if pending - n + i < 0 then InputFrame(empty, 0) else history[pending - n + i])
  }

  /**
   * Sending and receiving agree: every frame of the message that the server
   * had not received (after any gap reset) ends up in its buffer with the
   * client's command and delta time.
   */
  lemma IndependentSendRecv<C>(s: IndependentServer<C>, history: seq<InputFrame<C>>, pending: int, n: nat, empty: C, g: int)
    requires ValidIndependent(s) && n <= FrameBuffer.Capacity(s.inputs)
    requires pending <= |history|
    requires pending - n <= g < pending && g > IndependentResetOnGap(s, pending - n).lastRecvFrame
    ensures g >= 0
    ensures FrameBuffer.At(IndependentNetRecv(s, pending, IndependentClientEntries(history, pending, n, empty)).inputs, g) == history[g]
  {
    var entries := IndependentClientEntries(history, pending, n, empty);
    IndependentRecvStores(IndependentResetOnGap(s, pending - n), pending - n, entries, g);
  }

  // ---------------------------------------------------------------------
  // Fixed tick (TFixedTickReplicator_Server)
  // ---------------------------------------------------------------------

  /** An entry of the fixed-tick input buffer: the interpolation time it arrived with and the command. */
  datatype TimedInput<C> = TimedInput(interpolationMS: real, cmd: C)

  /** TJoltServerRecvData_Fixed's bookkeeping. */
  datatype FixedServer<C> = FixedServer(
    lastConsumedFrame: int,
    lastRecvFrame: int,
    inputs: FrameBuffer.Buffer<TimedInput<C>>)

  predicate ValidFixed<C>(s: FixedServer<C>)
  {
    s.lastConsumedFrame >= INDEX_NONE && s.lastRecvFrame >= INDEX_NONE && FrameBuffer.Valid(s.inputs)
  }

  function InitialFixed<C>(empty: C): (s: FixedServer<C>)
    ensures ValidFixed(s) && FrameBuffer.Capacity(s.inputs) == FIXED_INPUT_BUFFER_SIZE
    ensures s.lastConsumedFrame == INDEX_NONE && s.lastRecvFrame == INDEX_NONE
  {
    FixedServer(INDEX_NONE, INDEX_NONE, FrameBuffer.Make(FIXED_INPUT_BUFFER_SIZE, TimedInput(0.0, empty)))
  }

  /** The newest frame a fixed-tick server will not overwrite: received or consumed. */
  function FixedSeen<C>(s: FixedServer<C>): int
  {
    Max(s.lastRecvFrame, s.lastConsumedFrame)
  }

  /**
   * One new frame: unless the server was starved when the message arrived,
   * the frames skipped since the last received one first repeat the
   * previous input; then the frame takes the command and becomes the last
   * received frame.
   */
  function FixedAccept<C>(s: FixedServer<C>, starved: bool, frame: int, cmd: C): (r: FixedServer<C>)
    requires ValidFixed(s) && frame > s.lastRecvFrame
    ensures ValidFixed(r) && FrameBuffer.Capacity(r.inputs) == FrameBuffer.Capacity(s.inputs)
    ensures r.lastConsumedFrame == s.lastConsumedFrame && r.lastRecvFrame == frame
    ensures FrameBuffer.At(r.inputs, frame).cmd == cmd
  {
    var filled := if starved then s.inputs else CopyForward(s.inputs, s.lastRecvFrame + 1, frame);
    s.(inputs := FrameBuffer.Put(filled, frame, FrameBuffer.At(filled, frame).(cmd := cmd)), lastRecvFrame := frame)
  }

  /** Accepting a frame leaves every received frame within a capacity of it alone. */
  lemma FixedAcceptKeepsReceived<C>(s: FixedServer<C>, starved: bool, frame: int, cmd: C, x: nat)
    requires ValidFixed(s) && frame > s.lastRecvFrame
    requires x <= s.lastRecvFrame && frame < x + FrameBuffer.Capacity(s.inputs)
    ensures FrameBuffer.At(FixedAccept(s, starved, frame, cmd).inputs, x) == FrameBuffer.At(s.inputs, x)
  {
    if !starved {
      CopyForwardKeepsEarlier(s.inputs, s.lastRecvFrame + 1, frame, x);
    }
    FrameBuffer.NearbyFramesDistinctSlots(s.inputs, x, frame);
  }

  /** Without starvation, accepting a frame past a gap fills the gap with the previous input. */
  lemma FixedAcceptFillsGap<C>(s: FixedServer<C>, frame: int, cmd: C, d: int)
    requires ValidFixed(s) && frame > s.lastRecvFrame
    requires s.lastRecvFrame < d < frame && frame <= s.lastRecvFrame + FrameBuffer.Capacity(s.inputs)
    ensures FrameBuffer.At(FixedAccept(s, false, frame, cmd).inputs, d) == FrameBuffer.At(s.inputs, Max(s.lastRecvFrame, 0))
  {
    FrameBuffer.NearbyFramesDistinctSlots(s.inputs, d, frame);
    CopyForwardFills(s.inputs, s.lastRecvFrame + 1, frame, d);
  }

  /**
   * The receive loop: frames already received or consumed are dropped;
   * each new one is accepted.
   */
  function FixedRecvFrames<C>(s: FixedServer<C>, starved: bool, frame: int, cmds: seq<C>): (r: FixedServer<C>)
    requires ValidFixed(s)
    ensures ValidFixed(r) && FrameBuffer.Capacity(r.inputs) == FrameBuffer.Capacity(s.inputs)
    ensures r.lastConsumedFrame == s.lastConsumedFrame
    ensures r.lastRecvFrame >= s.lastRecvFrame
    ensures |cmds| == 0 ==> r == s
    ensures |cmds| > 0 && frame + |cmds| - 1 > FixedSeen(s) ==> r.lastRecvFrame == frame + |cmds| - 1
    ensures frame + |cmds| - 1 <= FixedSeen(s) ==> r == s
    decreases |cmds|
  {
    if |cmds| == 0 then s
    else if frame <= s.lastRecvFrame || frame <= s.lastConsumedFrame then FixedRecvFrames(s, starved, frame + 1, cmds[1..])
    else FixedRecvFrames(FixedAccept(s, starved, frame, cmds[0]), starved, frame + 1, cmds[1..])
  }

  lemma {:induction false} FixedRecvKeepsReceived<C>(s: FixedServer<C>, starved: bool, frame: int, cmds: seq<C>, x: nat)
    requires ValidFixed(s)
    requires x <= s.lastRecvFrame && frame + |cmds| <= x + FrameBuffer.Capacity(s.inputs)
    ensures FrameBuffer.At(FixedRecvFrames(s, starved, frame, cmds).inputs, x) == FrameBuffer.At(s.inputs, x)
    decreases |cmds|
  {
    if |cmds| > 0 {
      if frame <= s.lastRecvFrame || frame <= s.lastConsumedFrame {
        FixedRecvKeepsReceived(s, starved, frame + 1, cmds[1..], x);
      } else {
        FixedRecvKeepsReceived(FixedAccept(s, starved, frame, cmds[0]), starved, frame + 1, cmds[1..], x);
        FixedAcceptKeepsReceived(s, starved, frame, cmds[0], x);
      }
    }
  }

  /** Every frame newer than both the last received and the last consumed one gets its command. */
  lemma {:induction false} FixedRecvStores<C>(s: FixedServer<C>, starved: bool, frame: int, cmds: seq<C>, g: int)
    requires ValidFixed(s)
    requires |cmds| <= FrameBuffer.Capacity(s.inputs)
    requires frame <= g < frame + |cmds| && g > FixedSeen(s)
    ensures FrameBuffer.At(FixedRecvFrames(s, starved, frame, cmds).inputs, g).cmd == cmds[g - frame]
    decreases |cmds|, 1
  {
    if frame <= s.lastRecvFrame || frame <= s.lastConsumedFrame {
      FixedRecvStoresSkipped(s, starved, frame, cmds, g);
    } else if g == frame {
      FixedRecvStoresFirst(s, starved, frame, cmds);
    } else {
      FixedRecvStoresLater(s, starved, frame, cmds, g);
    }
  }

  lemma {:induction false} FixedRecvStoresSkipped<C>(s: FixedServer<C>, starved: bool, frame: int, cmds: seq<C>, g: int)
    requires ValidFixed(s)
    requires |cmds| <= FrameBuffer.Capacity(s.inputs)
    requires frame <= g < frame + |cmds| && g > FixedSeen(s)
    requires frame <= s.lastRecvFrame || frame <= s.lastConsumedFrame
    ensures FrameBuffer.At(FixedRecvFrames(s, starved, frame, cmds).inputs, g).cmd == cmds[g - frame]
    decreases |cmds|, 0
  {
    assert FixedRecvFrames(s, starved, frame, cmds) == FixedRecvFrames(s, starved, frame + 1, cmds[1..]);
    FixedRecvStores(s, starved, frame + 1, cmds[1..], g);
    assert cmds[1..][g - (frame + 1)] == cmds[g - frame];
  }

  lemma {:induction false} FixedRecvStoresLater<C>(s: FixedServer<C>, starved: bool, frame: int, cmds: seq<C>, g: int)
    requires ValidFixed(s)
    requires |cmds| <= FrameBuffer.Capacity(s.inputs)
    requires frame < g < frame + |cmds| && frame > FixedSeen(s)
    ensures FrameBuffer.At(FixedRecvFrames(s, starved, frame, cmds).inputs, g).cmd == cmds[g - frame]
    decreases |cmds|, 0
  {
    var s' := FixedAccept(s, starved, frame, cmds[0]);
    assert FixedRecvFrames(s, starved, frame, cmds) == FixedRecvFrames(s', starved, frame + 1, cmds[1..]);
    FixedRecvStores(s', starved, frame + 1, cmds[1..], g);
    assert cmds[1..][g - (frame + 1)] == cmds[g - frame];
  }

  /** The message's first frame, when new, holds its command afterwards. */
  lemma FixedRecvStoresFirst<C>(s: FixedServer<C>, starved: bool, frame: int, cmds: seq<C>)
    requires ValidFixed(s)
    requires 0 < |cmds| <= FrameBuffer.Capacity(s.inputs) && frame > FixedSeen(s)
    ensures FrameBuffer.At(FixedRecvFrames(s, starved, frame, cmds).inputs, frame).cmd == cmds[0]
  {
    var s' := FixedAccept(s, starved, frame, cmds[0]);
    FixedRecvKeepsReceived(s', starved, frame + 1, cmds[1..], frame);
  }

  /**
   * Unless starved, frames skipped before the first new frame repeat the
   * last received frame's entry (frame 0's when nothing was received),
   * provided the message lands within a capacity of the gap's start.
   */
  lemma FixedRecvCopiesIntoGap<C>(s: FixedServer<C>, frame: int, cmds: seq<C>, d: int)
    requires ValidFixed(s)
    requires |cmds| > 0 && frame > FixedSeen(s) && s.lastRecvFrame < d < frame
    requires frame + |cmds| <= s.lastRecvFrame + 1 + FrameBuffer.Capacity(s.inputs)
    ensures FrameBuffer.At(FixedRecvFrames(s, false, frame, cmds).inputs, d) ==
      FrameBuffer.At(s.inputs, Max(s.lastRecvFrame, 0))
  {
    var s' := FixedAccept(s, false, frame, cmds[0]);
    FixedRecvKeepsReceived(s', false, frame + 1, cmds[1..], d);
    FixedAcceptFillsGap(s, frame, cmds[0], d);
  }

  /**
   * TFixedTickReplicator_Server::NetRecv: whether the server is starved
   * (nothing received beyond what it consumed) is decided once, before the
   * loop.
   */
  function FixedNetRecv<C>(s: FixedServer<C>, endFrame: int, cmds: seq<C>): (r: FixedServer<C>)
    requires ValidFixed(s)
    ensures ValidFixed(r) && r.lastConsumedFrame == s.lastConsumedFrame
    ensures |cmds| > 0 && endFrame - 1 > FixedSeen(s) ==> r.lastRecvFrame == endFrame - 1
    ensures endFrame - 1 <= FixedSeen(s) ==> r == s
  {
    FixedRecvFrames(s, s.lastRecvFrame <= s.lastConsumedFrame, endFrame - |cmds|, cmds)
  }

  /** The client's side: commands for [pending - n, pending), empty before frame 0. */
  function FixedClientCmds<C>(history: seq<C>, pending: int, n: nat, empty: C): (r: seq<C>)
    requires pending <= |history|
    ensures |r| == n
    ensures forall i :: 0 <= i < n && pending - n + i >= 0 ==> r[i] == history[pending - n + i]
  {
    seq(n, i requires 0 <= i < n => if pending - n + i < 0 then empty else history[pending - n + i])
  }

  lemma FixedSendRecv<C>(s: FixedServer<C>, history: seq<C>, pending: int, n: nat, empty: C, g: int)
    requires ValidFixed(s) && n <= FrameBuffer.Capacity(s.inputs)
    requires pending <= |history|
    requires pending - n <= g < pending && g > FixedSeen(s)
    ensures g >= 0
    ensures FrameBuffer.At(FixedNetRecv(s, pending, FixedClientCmds(history, pending, n, empty)).inputs, g).cmd == history[g]
  {
    var cmds := FixedClientCmds(history, pending, n, empty);
    FixedRecvStores(s, s.lastRecvFrame <= s.lastConsumedFrame, pending - n, cmds, g);
  }
}
