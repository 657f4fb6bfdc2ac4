/**
 * The bit-level archive the replicators write to and read from: a sequence
 * of bits, each value least significant bit first. Three encodings are
 * used: a whole int32 (`Ar << Frame`, two's complement, 32 bits), a single
 * bit (`SerializeBits(&b, 1)`), and the engine's packed unsigned integer
 * (`SerializeIntPacked`: bytes carrying 7 value bits above a continuation
 * bit, low groups first).
 */
module BitStream {
  import opened Common
  import opened Bits

  type Stream = seq<bool>

  /** The n low bits of x, least significant first. */
  function ToBits(x: nat, n: nat): (r: Stream)
    ensures |r| == n
  {
    if n == 0 then [] else [x % 2 == 1] + ToBits(x / 2, n - 1)
  }

  /** The value of a bit string read least significant bit first. */
  function FromBits(s: Stream): (r: nat)
    ensures r < Pow2(|s|)
  {
    if |s| == 0 then 0 else (if s[0] then 1 else 0) + 2 * FromBits(s[1..])
  }

  lemma {:induction false} FromBitsOfToBits(x: nat, n: nat)
    requires x < Pow2(n)
    ensures FromBits(ToBits(x, n)) == x
  {
    if n > 0 {
      var s := ToBits(x, n);
      assert s[1..] == ToBits(x / 2, n - 1);
      FromBitsOfToBits(x / 2, n - 1);
    }
  }

  lemma {:induction false} ToBitsOfFromBits(s: Stream)
    ensures ToBits(FromBits(s), |s|) == s
  {
    if |s| > 0 {
      var v := FromBits(s);
      assert v / 2 == FromBits(s[1..]);
      assert (v % 2 == 1) == s[0];
      ToBitsOfFromBits(s[1..]);
    }
  }

  // ---------------------------------------------------------------------
  // int32
  // ---------------------------------------------------------------------

  /** An int32's bit pattern as an unsigned 32-bit value. */
  function Int32ToU32(v: int): (u: nat)
    requires IsInt32(v)
    ensures u < U32_LIMIT
    ensures v >= 0 ==> u == v
  {
    if v >= 0 then v else v + U32_LIMIT
  }

  /** A 32-bit pattern read back as an int32. */
  function U32ToInt32(u: nat): (v: int)
    requires u < U32_LIMIT
    ensures IsInt32(v)
  {
    if u <= INT32_MAX then u else u - U32_LIMIT
  }

  lemma Int32RoundTrips(v: int, u: nat)
    requires IsInt32(v) && u < U32_LIMIT
    ensures U32ToInt32(Int32ToU32(v)) == v
    ensures Int32ToU32(U32ToInt32(u)) == u
  {
  }

  function WriteInt32(v: int): (s: Stream)
    requires IsInt32(v)
    ensures |s| == 32
  {
    ToBits(Int32ToU32(v), 32)
  }

  /** Reads 32 bits as an int32; None when the archive runs out. */
  function ReadInt32(s: Stream): (r: Option<(int, Stream)>)
    ensures r.Some? ==> |s| >= 32 && IsInt32(r.value.0) && r.value.1 == s[32..]
    ensures r.None? <==> |s| < 32
  {
    if |s| < 32 then None
    else
      Pow2Table();
      Some((U32ToInt32(FromBits(s[..32])), s[32..]))
  }

  lemma ReadWriteInt32(v: int, tail: Stream)
    requires IsInt32(v)
    ensures ReadInt32(WriteInt32(v) + tail) == Some((v, tail))
  {
    var s := WriteInt32(v) + tail;
    assert s[..32] == WriteInt32(v);
    assert s[32..] == tail;
    Pow2Table();
    FromBitsOfToBits(Int32ToU32(v), 32);
  }

  // ---------------------------------------------------------------------
  // Single bits
  // ---------------------------------------------------------------------

  function ReadBit(s: Stream): (r: Option<(bool, Stream)>)
    ensures r.Some? ==> |s| >= 1 && r.value == (s[0], s[1..])
    ensures r.None? <==> |s| == 0
  {
    if |s| == 0 then None else Some((s[0], s[1..]))
  }

  /** SerializeBits(n) on load: the next n raw bits. */
  function ReadRaw(s: Stream, n: nat): (r: Option<(Stream, Stream)>)
    ensures r.Some? ==> |r.value.0| == n && s == r.value.0 + r.value.1
    ensures r.None? <==> |s| < n
  {
    if |s| < n then None else Some((s[..n], s[n..]))
  }

  // ---------------------------------------------------------------------
  // Packed unsigned integers
  // ---------------------------------------------------------------------

  const PACKED_GROUP: nat := 128

  /** One packed byte: the low 7 bits of n above a continuation bit. */
  function PackedByte(n: nat): (b: nat)
    ensures b < 256 && b / 2 == n % PACKED_GROUP && (b % 2 == 1 <==> n >= PACKED_GROUP)
  {
    (n % PACKED_GROUP) * 2 + (if n >= PACKED_GROUP then 1 else 0)
  }

  /** SerializeIntPacked on save: one byte per 7-bit group, while bits remain. */
  function WritePacked(n: nat): (s: Stream)
    ensures |s| >= 8 && |s| % 8 == 0
    decreases n
  {
    ToBits(PackedByte(n), 8) + (if n >= PACKED_GROUP then WritePacked(n / PACKED_GROUP) else [])
  }

  /** SerializeIntPacked on load: bytes until one without the continuation bit. */
  function ReadPacked(s: Stream): (r: Option<(nat, Stream)>)
    ensures r.Some? ==> |r.value.1| < |s|
    decreases |s|
  {
    if |s| < 8 then None
    else
      var b := FromBits(s[..8]);
      if b % 2 == 1 then
        match ReadPacked(s[8..])
        case None => None
        case Some(p) => Some((b / 2 + PACKED_GROUP * p.0, p.1))
      else Some((b / 2, s[8..]))
  }

  lemma {:induction false} ReadWritePacked(n: nat, tail: Stream)
    ensures ReadPacked(WritePacked(n) + tail) == Some((n, tail))
    decreases n
  {
    var s := WritePacked(n) + tail;
    var first := ToBits(PackedByte(n), 8);
    PackedByteReadsBack(n);
    if n >= PACKED_GROUP {
      assert s == first + (WritePacked(n / PACKED_GROUP) + tail);
      assert s[..8] == first;
      assert s[8..] == WritePacked(n / PACKED_GROUP) + tail;
      ReadWritePacked(n / PACKED_GROUP, tail);
      assert n == n % PACKED_GROUP + PACKED_GROUP * (n / PACKED_GROUP);
    } else {
      assert s == first + tail;
      assert s[..8] == first;
      assert s[8..] == tail;
    }
  }

  /** A packed byte's eight bits read back as the byte. */
  lemma PackedByteReadsBack(n: nat)
    ensures FromBits(ToBits(PackedByte(n), 8)) == PackedByte(n)
  {
    Pow2Table();
    FromBitsOfToBits(PackedByte(n), 8);
  }
}
