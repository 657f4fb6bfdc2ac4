/**
 * FJoltNetworkPredictionSerialization's frame and time helpers, and the
 * delta-serialized update framing shared by the server-to-client
 * replicators: a has-base bit, the optional base frame, the packed size of
 * the rest, then exactly that many bits, so a receiver missing the base can
 * skip the update and stay aligned.
 */
module Serialization {
  import opened Common
  import opened Bits
  import opened BitStream

  const NUM_BITS_FRAME: nat := 8
  const MAX_FRAME_WRITE: nat := 256
  const FRAME_ERROR_THRESHOLD: nat := MAX_FRAME_WRITE / 2

  lemma FrameConstants()
    ensures MAX_FRAME_WRITE == Pow2(NUM_BITS_FRAME)
    ensures FRAME_ERROR_THRESHOLD == 128 && 2 * FRAME_ERROR_THRESHOLD == MAX_FRAME_WRITE
  {
    Pow2Table();
  }

  // ---------------------------------------------------------------------
  // Frames and times
  // ---------------------------------------------------------------------

  /** WriteCompressedFrame: the whole int32 (the 8-bit scheme is disabled). */
  function WriteCompressedFrame(frame: int): (s: Stream)
    requires IsInt32(frame)
    ensures |s| == 32
  {
    WriteInt32(frame)
  }

  /** ReadCompressedFrame: the whole int32; the relative frame plays no part. */
  function ReadCompressedFrame(s: Stream, relativeFrame: int): (r: Option<(int, Stream)>)
    ensures r == ReadInt32(s)
  {
    ReadInt32(s)
  }

  /** Any frame survives the trip, whatever relative frame the reader passes. */
  lemma CompressedFrameRoundTrips(frame: int, relativeFrame: int, tail: Stream)
    requires IsInt32(frame)
    ensures ReadCompressedFrame(WriteCompressedFrame(frame) + tail, relativeFrame) == Some((frame, tail))
  {
    ReadWriteInt32(frame, tail);
  }

  /** SerializeTimeMS: a plain int32. */
  function WriteTimeMS(t: int): (s: Stream)
    requires IsInt32(t)
    ensures |s| == 32
  {
    WriteInt32(t)
  }

  function ReadTimeMS(s: Stream): (r: Option<(int, Stream)>)
    ensures r == ReadInt32(s)
  {
    ReadInt32(s)
  }

  /** SerializeDeltaMS: the int32's bit pattern, packed as an unsigned value. */
  function WriteDeltaMS(d: int): (s: Stream)
    requires IsInt32(d)
    ensures |s| >= 8
  {
    WritePacked(Int32ToU32(d))
  }

  /** The reader keeps the low 32 bits of the packed value and reinterprets them as an int32. */
  function ReadDeltaMS(s: Stream): (r: Option<(int, Stream)>)
    ensures r.Some? ==> IsInt32(r.value.0)
  {
    match ReadPacked(s)
    case None => None
    case Some(p) => Some((U32ToInt32(p.0 % U32_LIMIT), p.1))
  }

  lemma DeltaMSRoundTrips(d: int, tail: Stream)
    requires IsInt32(d)
    ensures ReadDeltaMS(WriteDeltaMS(d) + tail) == Some((d, tail))
  {
    var u := Int32ToU32(d);
    ReadWritePacked(u, tail);
    DivUnique(u, U32_LIMIT, 0, u);
    Int32RoundTrips(d, 0);
  }

  // ---------------------------------------------------------------------
  // Delta-serialized update framing
  // ---------------------------------------------------------------------

  /**
   * The sender's side: `base` is the acked frame the update is relative to,
   * if any; `local` is everything serialized into the local writer.
   */
  function WriteDeltaUpdate(base: Option<int>, local: Stream): (s: Stream)
    requires base.Some? ==> IsInt32(base.value)
    requires |local| < U32_LIMIT
  {
    [base.Some?] + (if base.Some? then WriteCompressedFrame(base.value) else []) +
    WritePacked(|local|) + local
  }

  /** What the receiver makes of the framing. */
  datatype DeltaHeader =
    | Malformed
      /** The base frame is not among the acked frames: the update is skipped. */
    | Discarded(rest: Stream)
      /** The update is read; base is None for a full (non-delta) update. */
    | Accepted(base: Option<int>, local: Stream, rest: Stream)

  /**
   * The receiver's side: a has-base bit, the base frame when set, the packed
   * size; a base of INDEX_NONE counts as no base. A base missing from the
   * acked frames discards exactly `size` bits; otherwise the next `size`
   * bits are the update.
   */
  function ReadDeltaUpdate(s: Stream, acked: set<int>): (r: DeltaHeader)
    ensures r.Discarded? ==> |r.rest| < |s|
    ensures r.Accepted? ==> r.base.Some? ==> r.base.value in acked && r.base.value != INDEX_NONE
  {
    match ReadBit(s)
    case None => Malformed
    case Some(hb) =>
      var baseRead := if hb.0 then ReadCompressedFrame(hb.1, 0) else Some((INDEX_NONE, hb.1));
      match baseRead
      case None => Malformed
      case Some(bf) =>
        match ReadPacked(bf.1)
        case None => Malformed
        case Some(sz) =>
          match ReadRaw(sz.1, sz.0)
          case None => Malformed
          case Some(payload) =>
            if bf.0 != INDEX_NONE && bf.0 !in acked then Discarded(payload.1)
            else Accepted(if bf.0 == INDEX_NONE then None else Some(bf.0), payload.0, payload.1)
  }

  /**
   * The framing round-trips: the receiver either discards exactly the
   * sender's update, leaving whatever followed it, or reads back the same
   * base and the same local bits.
   */
  lemma DeltaUpdateRoundTrips(base: Option<int>, local: Stream, acked: set<int>, tail: Stream)
    requires base.Some? ==> IsInt32(base.value)
    requires |local| < U32_LIMIT
    ensures var r := ReadDeltaUpdate(WriteDeltaUpdate(base, local) + tail, acked);
      if base.Some? && base.value != INDEX_NONE && base.value !in acked then r == Discarded(tail)
      else r == Accepted(if base.Some? && base.value != INDEX_NONE then base else None, local, tail)
  {
    var afterBase := WritePacked(|local|) + (local + tail);
    var s := WriteDeltaUpdate(base, local) + tail;
    SizedPayloadRoundTrips(local, tail);
    if base.Some? {
      var afterBit := WriteCompressedFrame(base.value) + afterBase;
      DeltaUpdateSplits(base, local, tail, afterBit);
      CompressedFrameRoundTrips(base.value, 0, afterBase);
      ReadDeltaUpdateInTurn(s, acked, true, afterBit, base.value, afterBase, |local|, local + tail, local, tail);
    } else {
      DeltaUpdateSplits(base, local, tail, afterBase);
      ReadDeltaUpdateInTurn(s, acked, false, afterBase, INDEX_NONE, afterBase, |local|, local + tail, local, tail);
    }
  }

  /** The framing starts with the has-base bit, followed by `afterBit`. */
  lemma DeltaUpdateSplits(base: Option<int>, local: Stream, tail: Stream, afterBit: Stream)
    requires base.Some? ==> IsInt32(base.value)
    requires |local| < U32_LIMIT
    requires afterBit == (if base.Some? then WriteCompressedFrame(base.value) else []) + (WritePacked(|local|) + (local + tail))
    ensures ReadBit(WriteDeltaUpdate(base, local) + tail) == Some((base.Some?, afterBit))
  {
    var frame := if base.Some? then WriteCompressedFrame(base.value) else [];
    Regroup([base.Some?], frame, WritePacked(|local|), local, tail);
    assert ([base.Some?] + afterBit)[1..] == afterBit;
  }

  lemma Regroup(a: Stream, b: Stream, c: Stream, d: Stream, e: Stream)
    ensures a + b + c + d + e == a + (b + (c + (d + e)))
  {
  }

  /** The receiver's result once each field has been read in turn. */
  lemma ReadDeltaUpdateInTurn(s: Stream, acked: set<int>, has: bool, afterBit: Stream, b: int, afterBase: Stream,
                              n: nat, afterSize: Stream, local: Stream, tail: Stream)
    requires ReadBit(s) == Some((has, afterBit))
    requires (if has then ReadCompressedFrame(afterBit, 0) else Some((INDEX_NONE, afterBit))) == Some((b, afterBase))
    requires ReadPacked(afterBase) == Some((n, afterSize)) && ReadRaw(afterSize, n) == Some((local, tail))
    ensures ReadDeltaUpdate(s, acked)
      == if b != INDEX_NONE && b !in acked then Discarded(tail)
         else Accepted(if b == INDEX_NONE then None else Some(b), local, tail)
  {
  }

  /** The size-then-payload tail of the framing. */
  lemma SizedPayloadRoundTrips(local: Stream, tail: Stream)
    ensures ReadPacked(WritePacked(|local|) + (local + tail)) == Some((|local|, local + tail))
    ensures ReadRaw(local + tail, |local|) == Some((local, tail))
  {
    ReadWritePacked(|local|, local + tail);
    assert (local + tail)[..|local|] == local;
    assert (local + tail)[|local|..] == tail;
  }

  /** Once a base is accepted, acked frames older than it are dropped. */
  function PruneAckedFrames<T>(acked: map<int, T>, base: int): (r: map<int, T>)
    ensures forall k :: k in r <==> k in acked && k >= base
    ensures forall k :: k in r ==> r[k] == acked[k]
  {
    map k | k in acked && k >= base :: acked[k]
  }

  /**
   * What pruning is for: once the receiver has accepted base `b`, an
   * update the sender delta-compressed against an older frame arrives out
   * of order and is discarded whole, while one against `b` or a later
   * frame still acked is read as before.
   */
  lemma PruneDiscardsOlderBases<T>(acked: map<int, T>, b: int, base: int, local: Stream, tail: Stream)
    requires IsInt32(base) && base != INDEX_NONE && |local| < U32_LIMIT
    ensures var s := WriteDeltaUpdate(Some(base), local) + tail;
      var r := ReadDeltaUpdate(s, PruneAckedFrames(acked, b).Keys);
      && (base < b ==> r == Discarded(tail))
      && (base >= b && base in acked ==> r == Accepted(Some(base), local, tail))
  {
    DeltaUpdateRoundTrips(Some(base), local, PruneAckedFrames(acked, b).Keys, tail);
  }

  /** Pruning against successive bases leaves what pruning against the latest one does. */
  lemma PruneTwice<T>(acked: map<int, T>, b1: int, b2: int)
    requires b1 <= b2
    ensures PruneAckedFrames(PruneAckedFrames(acked, b1), b2) == PruneAckedFrames(acked, b2)
  {
  }
}
