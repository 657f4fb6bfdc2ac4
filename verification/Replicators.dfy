/**
 * The server-to-client replicators: what the server writes for the
 * autonomous proxy (AP) and simulated proxy (SP) clients, in fixed and
 * independent ticking, and what a client makes of it. The user states
 * (input, sync, aux) and the cues are produced by serializers outside this
 * model; they are carried as an opaque payload `body` whose bits the
 * receiver takes whole.
 */
module Replicators {
  import opened Common
  import opened Bits
  import opened BitStream
  import opened Serialization
  import FrameBuffer
  import TickState

  /**
   * TJoltClientRecvData as the replicators see it: the instance ID, the last
   * server frame and sim time received, the last state payload, and the
   * acked frames kept as delta bases.
   */
  datatype ClientRecv = ClientRecv(
    id: int,
    serverFrame: int,
    simTimeMS: int,
    state: Stream,
    ackedFrames: map<int, Stream>)

  // ---------------------------------------------------------------------
  // Choosing a delta base on the server
  // ---------------------------------------------------------------------

  /**
   * TFixedTickReplicator_AP::NetSend's choice: the acked frame the client
   * reported (a uint32, reinterpreted as int32) is a base only when the
   * client has consumed input, the frame is before the pending frame and
   * within the frame buffer's reach, and delta serialization is on.
   */
  function APDeltaBase(lastConsumed: int, acked: Option<nat>, pending: int, capacity: nat, deltaOn: bool): (r: Option<int>)
    requires acked.Some? ==> acked.value < U32_LIMIT
    ensures r.Some? <==> (deltaOn && lastConsumed != INDEX_NONE && acked.Some? &&
      U32ToInt32(acked.value) < pending && pending - U32ToInt32(acked.value) < capacity)
    ensures r.Some? ==> r.value == U32ToInt32(acked.value) && IsInt32(r.value)
  {
    if lastConsumed == INDEX_NONE || acked.None? then None
    else
      var signed := U32ToInt32(acked.value);
      if signed < pending && pending - signed < capacity && deltaOn then Some(signed) else None
  }

  /**
   * TFixedTickReplicator_SP::NetSend's choice: only the distance
   * to the pending frame is checked, so an acked frame ahead of the pending
   * frame also qualifies; a reported INDEX_NONE never does.
   */
  function SPDeltaBase(acked: Option<nat>, pending: int, capacity: nat, deltaOn: bool): (r: Option<int>)
    requires acked.Some? ==> acked.value < U32_LIMIT
    ensures r.Some? <==> (deltaOn && acked.Some? && U32ToInt32(acked.value) != INDEX_NONE &&
      pending - U32ToInt32(acked.value) < capacity)
    ensures r.Some? ==> r.value == U32ToInt32(acked.value) && IsInt32(r.value)
  {
    if acked.None? then None
    else
      var signed := U32ToInt32(acked.value);
      var frame := if pending - signed < capacity then signed else INDEX_NONE;
      if frame != INDEX_NONE && deltaOn then Some(frame) else None
  }

  /** An acked frame after the pending one is accepted as the SP base. */
  lemma SPBaseMayBeAhead()
    ensures SPDeltaBase(Some(12), 10, 32, true) == Some(12)
    ensures APDeltaBase(0, Some(12), 10, 32, true) == None
  {
  }

  /** The SP choice with the AP's ordering check added. */
  function SPDeltaBaseGuarded(acked: Option<nat>, pending: int, capacity: nat, deltaOn: bool): (r: Option<int>)
    requires acked.Some? ==> acked.value < U32_LIMIT
    ensures r.Some? <==> (deltaOn && acked.Some? && U32ToInt32(acked.value) != INDEX_NONE &&
      U32ToInt32(acked.value) < pending && pending - U32ToInt32(acked.value) < capacity)
    ensures r.Some? ==> r.value == U32ToInt32(acked.value) && IsInt32(r.value)
  {
    match SPDeltaBase(acked, pending, capacity, deltaOn)
    case None => None
    case Some(b) => if b < pending then Some(b) else None
  }

  /**
   * Why the ordering check matters: with it, no frame the server stored
   * after the base, up to the pending frame, shares the base's slot in the
   * frame buffer, so the base slot still holds the base frame's state.
   */
  lemma GuardedBaseSlotIntact<T>(b: FrameBuffer.Buffer<T>, acked: Option<nat>, pending: int, deltaOn: bool, g: nat)
    requires FrameBuffer.Valid(b)
    requires acked.Some? ==> acked.value < U32_LIMIT
    requires SPDeltaBaseGuarded(acked, pending, FrameBuffer.Capacity(b), deltaOn).Some?
    requires SPDeltaBaseGuarded(acked, pending, FrameBuffer.Capacity(b), deltaOn).value >= 0
    requires SPDeltaBaseGuarded(acked, pending, FrameBuffer.Capacity(b), deltaOn).value < g <= pending
    ensures FrameBuffer.Slot(b, g) != FrameBuffer.Slot(b, SPDeltaBaseGuarded(acked, pending, FrameBuffer.Capacity(b), deltaOn).value)
  {
    var base := SPDeltaBaseGuarded(acked, pending, FrameBuffer.Capacity(b), deltaOn).value;
    FrameBuffer.NearbyFramesDistinctSlots(b, base, g);
  }

  /**
   * The AP choice is the guarded SP choice restricted to clients that have
   * consumed input, for any reported frame other than the all-ones pattern.
   */
  lemma APBaseIsGuardedSPBase(lastConsumed: int, acked: Option<nat>, pending: int, capacity: nat, deltaOn: bool)
    requires acked.Some? ==> acked.value < U32_LIMIT && U32ToInt32(acked.value) != INDEX_NONE
    requires lastConsumed != INDEX_NONE
    ensures APDeltaBase(lastConsumed, acked, pending, capacity, deltaOn) == SPDeltaBaseGuarded(acked, pending, capacity, deltaOn)
  {
  }

  // ---------------------------------------------------------------------
  // Fixed tick, server to AP
  // ---------------------------------------------------------------------

  /** The local writer's contents: last consumed client frame, server frame, then the state and cues. */
  function FixedAPPayload(lastConsumed: int, pending: int, body: Stream): (s: Stream)
    requires IsInt32(lastConsumed) && IsInt32(pending)
    ensures |s| == 64 + |body|
  {
    WriteCompressedFrame(lastConsumed) + WriteCompressedFrame(pending) + body
  }

  function FixedAPNetSend(base: Option<int>, lastConsumed: int, pending: int, body: Stream): (s: Stream)
    requires base.Some? ==> IsInt32(base.value)
    requires IsInt32(lastConsumed) && IsInt32(pending)
    requires 64 + |body| < U32_LIMIT
  {
    WriteDeltaUpdate(base, FixedAPPayload(lastConsumed, pending, body))
  }

  /** The AP client's state after a receive: its recv data, its tick state and its locally acked frames by ID. */
  datatype APClient = APClient(
    recv: ClientRecv,
    tick: TickState.FixedTickState,
    latestRecvFrameAP: int,
    localAcked: map<int, int>)

  /** The update and what is left of the archive. */
  datatype Received<S> = Received(client: S, rest: Stream)

  /** The fields of an accepted update: the client frame, the server frame, and the rest. */
  function ReadAPPayload(local: Stream): (r: Option<(int, int, Stream)>)
    ensures r.Some? ==> |local| >= 64 && r.value.2 == local[64..]
  {
    match ReadCompressedFrame(local, 0)
    case None => None
    case Some(a) =>
      match ReadCompressedFrame(a.1, 0)
      case None => None
      case Some(b) => Some((a.0, b.0, b.1))
  }

  /**
   * TFixedTickReplicator_AP::NetRecv. A discarded update leaves the client as
   * it was. An accepted one prunes older acked frames, recomputes the offset
   * when the server reports a consumed frame, confirms the server frame less
   * the offset, keeps the state, and records it as acked when the offset is
   * positive and the ID valid. None: the archive ran out.
   */
  function FixedAPNetRecv(s: Stream, c: APClient): (r: Option<Received<APClient>>)
    ensures r.Some? ==> r.value.client.recv.id == c.recv.id
    ensures r.Some? && r.value.client != c ==>
      r.value.client.tick.confirmedFrame + r.value.client.tick.offset == r.value.client.recv.serverFrame &&
      r.value.client.latestRecvFrameAP == r.value.client.recv.serverFrame
  {
    match ReadDeltaUpdate(s, c.recv.ackedFrames.Keys)
    case Malformed => None
    case Discarded(rest) => Some(Received(c, rest))
    case Accepted(base, local, rest) =>
      match ReadAPPayload(local)
      case None => None
      case Some(fields) =>
        var (lastConsumed, serverFrame, body) := fields;
        var pruned := if base.Some? then PruneAckedFrames(c.recv.ackedFrames, base.value) else c.recv.ackedFrames;
        var offset := if lastConsumed != INDEX_NONE then serverFrame - lastConsumed - 1 else c.tick.offset;
        var tick := c.tick.(offset := offset, confirmedFrame := serverFrame - offset);
        var record := offset > 0 && c.recv.id >= 0;
        var recv := c.recv.(serverFrame := serverFrame, state := body,
          ackedFrames := if record then pruned[serverFrame := body] else pruned);
        var localAcked := if record then c.localAcked[c.recv.id := serverFrame] else c.localAcked;
        Some(Received(APClient(recv, tick, serverFrame, localAcked), rest))
  }

  lemma ReadAPPayloadOfWrite(lastConsumed: int, pending: int, body: Stream)
    requires IsInt32(lastConsumed) && IsInt32(pending)
    ensures ReadAPPayload(FixedAPPayload(lastConsumed, pending, body)) == Some((lastConsumed, pending, body))
  {
    var rest := WriteCompressedFrame(pending) + body;
    assert FixedAPPayload(lastConsumed, pending, body) == WriteCompressedFrame(lastConsumed) + rest;
    CompressedFrameRoundTrips(lastConsumed, 0, rest);
    CompressedFrameRoundTrips(pending, 0, body);
  }

  /**
   * What the server sends, the AP client reads: with a base the client no
   * longer has, nothing changes and the reader is past the update; otherwise
   * the client holds the server's frame and state, and when the server
   * reported a consumed frame the client's frame `lastConsumed + 1` is
   * confirmed.
   */
  lemma FixedAPRoundTrip(base: Option<int>, lastConsumed: int, pending: int, body: Stream, c: APClient, tail: Stream)
    requires base.Some? ==> IsInt32(base.value)
    requires IsInt32(lastConsumed) && IsInt32(pending)
    requires 64 + |body| < U32_LIMIT
    ensures var r := FixedAPNetRecv(FixedAPNetSend(base, lastConsumed, pending, body) + tail, c);
      r.Some? && r.value.rest == tail &&
      (base.Some? && base.value != INDEX_NONE && base.value !in c.recv.ackedFrames ==> r.value.client == c) &&
      (!(base.Some? && base.value != INDEX_NONE && base.value !in c.recv.ackedFrames) ==>
        r.value.client.recv.serverFrame == pending && r.value.client.recv.state == body &&
        (lastConsumed != INDEX_NONE ==>
          r.value.client.tick.offset == pending - lastConsumed - 1 &&
          r.value.client.tick.confirmedFrame == lastConsumed + 1))
  {
    DeltaUpdateRoundTrips(base, FixedAPPayload(lastConsumed, pending, body), c.recv.ackedFrames.Keys, tail);
    ReadAPPayloadOfWrite(lastConsumed, pending, body);
  }

  /**
   * After an accepted update relative to a base, the only acked frames kept
   * are the base and later ones, plus the frame just recorded.
   */
  lemma FixedAPPrunesOlderFrames(base: int, lastConsumed: int, pending: int, body: Stream, c: APClient, tail: Stream)
    requires IsInt32(base) && base != INDEX_NONE && base in c.recv.ackedFrames
    requires IsInt32(lastConsumed) && IsInt32(pending)
    requires 64 + |body| < U32_LIMIT
    ensures var r := FixedAPNetRecv(FixedAPNetSend(Some(base), lastConsumed, pending, body) + tail, c);
      r.Some? && base in r.value.client.recv.ackedFrames &&
      forall k :: k in r.value.client.recv.ackedFrames ==> k >= base || k == pending
  {
    DeltaUpdateRoundTrips(Some(base), FixedAPPayload(lastConsumed, pending, body), c.recv.ackedFrames.Keys, tail);
    ReadAPPayloadOfWrite(lastConsumed, pending, body);
  }

  // ---------------------------------------------------------------------
  // Fixed tick, server to SP
  // ---------------------------------------------------------------------

  function FixedSPPayload(pending: int, body: Stream): (s: Stream)
    requires IsInt32(pending)
    ensures |s| == 32 + |body|
  {
    WriteCompressedFrame(pending) + body
  }

  function FixedSPNetSend(base: Option<int>, pending: int, body: Stream): (s: Stream)
    requires base.Some? ==> IsInt32(base.value)
    requires IsInt32(pending)
    requires 32 + |body| < U32_LIMIT
  {
    WriteDeltaUpdate(base, FixedSPPayload(pending, body))
  }

  datatype SPClient = SPClient(recv: ClientRecv, latestRecvFrameSP: int, localAcked: map<int, int>)

  /**
   * TFixedTickReplicator_SP::NetRecv: the same framing; an accepted update
   * sets the server frame, raises the latest received SP frame to it, and
   * records the state as acked under that frame when it is positive.
   */
  function FixedSPNetRecv(s: Stream, c: SPClient): (r: Option<Received<SPClient>>)
    ensures r.Some? ==> r.value.client.latestRecvFrameSP >= c.latestRecvFrameSP
    ensures r.Some? && r.value.client != c ==> r.value.client.latestRecvFrameSP >= r.value.client.recv.serverFrame
    ensures r.Some? && r.value.client.recv.serverFrame > 0 && r.value.client != c ==>
      r.value.client.recv.serverFrame in r.value.client.recv.ackedFrames &&
      r.value.client.recv.ackedFrames[r.value.client.recv.serverFrame] == r.value.client.recv.state
  {
    match ReadDeltaUpdate(s, c.recv.ackedFrames.Keys)
    case Malformed => None
    case Discarded(rest) => Some(Received(c, rest))
    case Accepted(base, local, rest) =>
      match ReadCompressedFrame(local, 0)
      case None => None
      case Some(f) =>
        var (serverFrame, body) := f;
        var pruned := if base.Some? then PruneAckedFrames(c.recv.ackedFrames, base.value) else c.recv.ackedFrames;
        var record := serverFrame > 0;
        var recv := c.recv.(serverFrame := serverFrame, state := body,
          ackedFrames := if record then pruned[serverFrame := body] else pruned);
        var localAcked := if record then c.localAcked[c.recv.id := serverFrame] else c.localAcked;
        Some(Received(SPClient(recv, Max(c.latestRecvFrameSP, serverFrame), localAcked), rest))
  }

  lemma FixedSPRoundTrip(base: Option<int>, pending: int, body: Stream, c: SPClient, tail: Stream)
    requires base.Some? ==> IsInt32(base.value)
    requires IsInt32(pending)
    requires 32 + |body| < U32_LIMIT
    ensures var r := FixedSPNetRecv(FixedSPNetSend(base, pending, body) + tail, c);
      r.Some? && r.value.rest == tail &&
      (base.Some? && base.value != INDEX_NONE && base.value !in c.recv.ackedFrames ==> r.value.client == c) &&
      (!(base.Some? && base.value != INDEX_NONE && base.value !in c.recv.ackedFrames) ==>
        r.value.client.recv.serverFrame == pending && r.value.client.recv.state == body &&
        r.value.client.latestRecvFrameSP == Max(c.latestRecvFrameSP, pending) &&
        (pending > 0 ==> r.value.client.localAcked == c.localAcked[c.recv.id := pending]))
  {
    DeltaUpdateRoundTrips(base, FixedSPPayload(pending, body), c.recv.ackedFrames.Keys, tail);
    CompressedFrameRoundTrips(pending, 0, body);
  }

  // ---------------------------------------------------------------------
  // Independent tick, server to AP
  // ---------------------------------------------------------------------

  /** No delta framing: last consumed client frame, total sim time, then the state. */
  function IndependentAPNetSend(lastConsumed: int, totalSimTimeMS: int, body: Stream): (s: Stream)
    requires IsInt32(lastConsumed) && IsInt32(totalSimTimeMS)
    ensures |s| == 64 + |body|
  {
    WriteCompressedFrame(lastConsumed) + WriteTimeMS(totalSimTimeMS) + body
  }

  /**
   * TIndependentTickReplicator_AP::NetRecv: the server frame is one past the
   * last consumed client frame and is confirmed as it is. `bodyBits` is how
   * many bits the state serializers take.
   */
  function IndependentAPNetRecv(s: Stream, c: ClientRecv, confirmedFrame: int, bodyBits: nat): (r: Option<(ClientRecv, int, Stream)>)
    ensures r.Some? ==> r.value.1 == r.value.0.serverFrame
    ensures r.Some? ==> r.value.0.id == c.id && r.value.0.ackedFrames == c.ackedFrames
  {
    match ReadCompressedFrame(s, 0)
    case None => None
    case Some(a) =>
      match ReadTimeMS(a.1)
      case None => None
      case Some(t) =>
        match ReadRaw(t.1, bodyBits)
        case None => None
        case Some(b) =>
          var serverFrame := a.0 + 1;
          Some((c.(serverFrame := serverFrame, simTimeMS := t.0, state := b.0), serverFrame, b.1))
  }

  lemma IndependentAPRoundTrip(lastConsumed: int, totalSimTimeMS: int, body: Stream, c: ClientRecv, confirmedFrame: int, tail: Stream)
    requires IsInt32(lastConsumed) && IsInt32(totalSimTimeMS)
    ensures var r := IndependentAPNetRecv(IndependentAPNetSend(lastConsumed, totalSimTimeMS, body) + tail, c, confirmedFrame, |body|);
      r.Some? && r.value.0.serverFrame == lastConsumed + 1 && r.value.1 == lastConsumed + 1 &&
      r.value.0.simTimeMS == totalSimTimeMS && r.value.0.state == body && r.value.2 == tail
  {
    var afterFrame := WriteTimeMS(totalSimTimeMS) + (body + tail);
    assert IndependentAPNetSend(lastConsumed, totalSimTimeMS, body) + tail == WriteCompressedFrame(lastConsumed) + afterFrame;
    CompressedFrameRoundTrips(lastConsumed, 0, afterFrame);
    ReadWriteInt32(totalSimTimeMS, body + tail);
    assert (body + tail)[..|body|] == body;
    assert (body + tail)[|body|..] == tail;
  }

  // ---------------------------------------------------------------------
  // Independent tick, server to SP
  // ---------------------------------------------------------------------

  /**
   * The server's total sim time, the independent sim time only in traced
   * builds, then the state and cues.
   */
  function IndependentSPNetSend(serverTotalSimTimeMS: int, independentSimTimeMS: int, traced: bool, body: Stream): (s: Stream)
    requires IsInt32(serverTotalSimTimeMS) && IsInt32(independentSimTimeMS)
    ensures |s| == (if traced then 64 else 32) + |body|
  {
    WriteTimeMS(serverTotalSimTimeMS) + (if traced then WriteTimeMS(independentSimTimeMS) else []) + body
  }

  /**
   * TIndependentTickReplicator_SP::NetRecv: the server's sim time, the trace
   * time in traced builds, and the latest received time raised to the sim time.
   */
  function IndependentSPNetRecv(s: Stream, c: ClientRecv, latestRecvTimeMS: int, traced: bool, bodyBits: nat): (r: Option<(ClientRecv, int, Stream)>)
    ensures r.Some? ==> r.value.1 == Max(latestRecvTimeMS, r.value.0.simTimeMS)
    ensures r.Some? ==> r.value.0.serverFrame == c.serverFrame && r.value.0.ackedFrames == c.ackedFrames
  {
    match ReadTimeMS(s)
    case None => None
    case Some(t) =>
      var afterTrace := if traced then ReadTimeMS(t.1) else Some((t.0, t.1));
      match afterTrace
      case None => None
      case Some(tr) =>
        match ReadRaw(tr.1, bodyBits)
        case None => None
        case Some(b) => Some((c.(simTimeMS := t.0, state := b.0), Max(latestRecvTimeMS, t.0), b.1))
  }

  lemma IndependentSPRoundTrip(serverTotalSimTimeMS: int, independentSimTimeMS: int, traced: bool, body: Stream,
                               c: ClientRecv, latestRecvTimeMS: int, tail: Stream)
    requires IsInt32(serverTotalSimTimeMS) && IsInt32(independentSimTimeMS)
    ensures var r := IndependentSPNetRecv(IndependentSPNetSend(serverTotalSimTimeMS, independentSimTimeMS, traced, body) + tail,
                                          c, latestRecvTimeMS, traced, |body|);
      r.Some? && r.value.0.simTimeMS == serverTotalSimTimeMS && r.value.0.state == body &&
      r.value.1 == Max(latestRecvTimeMS, serverTotalSimTimeMS) && r.value.2 == tail
  {
    var afterTrace := body + tail;
    var afterTime := (if traced then WriteTimeMS(independentSimTimeMS) else []) + afterTrace;
    assert IndependentSPNetSend(serverTotalSimTimeMS, independentSimTimeMS, traced, body) + tail == WriteTimeMS(serverTotalSimTimeMS) + afterTime;
    ReadWriteInt32(serverTotalSimTimeMS, afterTime);
    if traced {
      ReadWriteInt32(independentSimTimeMS, afterTrace);
    } else {
      assert afterTime == afterTrace;
    }
    assert afterTrace[..|body|] == body;
    assert afterTrace[|body|..] == tail;
  }
}
