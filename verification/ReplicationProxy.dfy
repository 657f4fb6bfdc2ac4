/**
 * The replication plumbing shared by every simulation: the four proxy
 * targets and their serialize hooks, the parameters handed to NetSerialize,
 * the per-simulation input record a player controller sends to the server,
 * and the 16-bit fixed-point time dilation the server replicates back.
 * Floats are modelled as reals: the single-precision product `x * 10000.f`
 * is taken exactly.
 */
module ReplicationProxy {
  import opened Common
  import opened Bits
  import opened BitStream

  // ---------------------------------------------------------------------
  // Targets, parameters and the proxy set
  // ---------------------------------------------------------------------

  datatype Target = ServerRPC | AutonomousProxy | SimulatedProxy | Replay

  /**
   * FJoltNetSerializeParams: the archive and package map are the transport
   * and are left out; what remains is the target and the delta base.
   */
  datatype NetSerializeParams = NetSerializeParams(target: Target, hasPackageMap: bool, baseDeltaState: Option<nat>)

  /** The two constructors that do not name a target. */
  function MakeParams(hasPackageMap: bool): (p: NetSerializeParams)
    ensures p.target == ServerRPC && p.baseDeltaState.None?
    ensures p.hasPackageMap == hasPackageMap
  {
    NetSerializeParams(ServerRPC, hasPackageMap, None)
  }

  /** The constructor that names a target: still no delta base. */
  function MakeTargetedParams(hasPackageMap: bool, target: Target): (p: NetSerializeParams)
    ensures p.target == target && p.baseDeltaState.None?
    ensures target == ServerRPC ==> p == MakeParams(hasPackageMap)
  {
    NetSerializeParams(target, hasPackageMap, None)
  }

  /** A replication proxy: its target and the bound serialize function, if any (an opaque handle). */
  datatype Proxy = Proxy(target: Target, serializeFunc: Option<nat>)

  datatype ProxySet = ProxySet(serverRPC: Proxy, autonomousProxy: Proxy, simulatedProxy: Proxy, replay: Proxy)

  predicate AnyBound(p: ProxySet)
  {
    p.serverRPC.serializeFunc.Some? || p.autonomousProxy.serializeFunc.Some? ||
    p.simulatedProxy.serializeFunc.Some? || p.replay.serializeFunc.Some?
  }

  function Unbind(p: Proxy): (r: Proxy)
    ensures r.target == p.target && r.serializeFunc.None?
  {
    p.(serializeFunc := None)
  }

  /** FJoltReplicationProxySet::UnbindAll. */
  function UnbindAll(p: ProxySet): (r: ProxySet)
    ensures !AnyBound(r)
    ensures r.serverRPC.target == p.serverRPC.target && r.autonomousProxy.target == p.autonomousProxy.target
    ensures r.simulatedProxy.target == p.simulatedProxy.target && r.replay.target == p.replay.target
  {
    ProxySet(Unbind(p.serverRPC), Unbind(p.autonomousProxy), Unbind(p.simulatedProxy), Unbind(p.replay))
  }

  /** Unbinding is idempotent, and a set with nothing bound is a fixed point. */
  lemma UnbindAllIdempotent(p: ProxySet)
    ensures UnbindAll(UnbindAll(p)) == UnbindAll(p)
    ensures !AnyBound(p) ==> UnbindAll(p) == p
  {
  }

  // ---------------------------------------------------------------------
  // FJoltSimTimeDilation
  // ---------------------------------------------------------------------

  const DILATION_SCALE: real := 10000.0
  const UINT16_MAX: nat := 65535

  /** The stored value of a default-constructed FJoltSimTimeDilation. */
  const DEFAULT_STORED_DILATION: nat := 10000

  /** FMath::RoundToInt32: halves round up. */
  function RoundToInt(x: real): (r: int)
    ensures r as real <= x + 0.5 < r as real + 1.0
  {
    (x + 0.5).Floor
  }

  /** UpdateTimeDilation: the dilation in units of 1/10000, clamped to a uint16. */
  function Quantize(x: real): (q: nat)
    ensures q <= UINT16_MAX
  {
    Clamp(RoundToInt(x * DILATION_SCALE), 0, UINT16_MAX)
  }

  /** GetTimeDilation. */
  function Dequantize(q: nat): (x: real)
    ensures x * DILATION_SCALE == q as real
  {
    q as real / DILATION_SCALE
  }

  /** The default dilation is exactly 1, and 1 is stored as the default. */
  lemma DefaultDilationIsOne()
    ensures Dequantize(DEFAULT_STORED_DILATION) == 1.0
    ensures Quantize(1.0) == DEFAULT_STORED_DILATION
  {
    assert RoundToInt(1.0 * DILATION_SCALE) == 10000;
  }

  /** Any stored value survives a read followed by a write. */
  lemma QuantizeDequantize(q: nat)
    requires q <= UINT16_MAX
    ensures Quantize(Dequantize(q)) == q
  {
    assert Dequantize(q) * DILATION_SCALE == q as real;
    assert RoundToInt(q as real) == q;
  }

  /**
   * Within the representable range a dilation comes back to within half a
   * unit of the last place; outside it, it saturates at the nearer end.
   */
  lemma QuantizeError(x: real)
    ensures 0.0 <= x * DILATION_SCALE <= UINT16_MAX as real ==>
      -0.5 < Dequantize(Quantize(x)) * DILATION_SCALE - x * DILATION_SCALE <= 0.5
    ensures x * DILATION_SCALE < 0.0 ==> Quantize(x) == 0
    ensures x * DILATION_SCALE > UINT16_MAX as real ==> Quantize(x) == UINT16_MAX
  {
    var k := RoundToInt(x * DILATION_SCALE);
    if 0.0 <= x * DILATION_SCALE <= UINT16_MAX as real {
      assert 0 <= k <= UINT16_MAX;
      assert Quantize(x) == k;
    }
  }

  /** The quantizer never reorders dilations. */
  lemma QuantizeMonotone(x: real, y: real)
    requires x <= y
    ensures Quantize(x) <= Quantize(y)
  {
    var a, b := x * DILATION_SCALE, y * DILATION_SCALE;
    assert a <= b;
    assert RoundToInt(a) <= RoundToInt(b);
  }

  // ---------------------------------------------------------------------
  // FJoltSimulationReplicatedInput
  // ---------------------------------------------------------------------

  /** One simulation's serialized input, as queued by a player controller. */
  datatype ReplicatedInput = ReplicatedInput(id: nat, dataSize: nat, data: seq<Byte>)

  predicate WellFormed(r: ReplicatedInput)
  {
    r.id < U32_LIMIT && r.dataSize < U32_LIMIT && |r.data| < U32_LIMIT
  }

  /** `Ar << uint8` for each byte: eight bits apiece. */
  function WriteBytes(data: seq<Byte>): (s: Stream)
    ensures |s| == 8 * |data|
  {
    if |data| == 0 then [] else ToBits(data[0], 8) + WriteBytes(data[1..])
  }

  function ReadBytes(s: Stream, n: nat): (r: Option<(seq<Byte>, Stream)>)
    ensures r.Some? ==> |r.value.0| == n && |s| >= 8 * n && r.value.1 == s[8 * n..]
    ensures r.None? <==> |s| < 8 * n
  {
    if n == 0 then Some(([], s))
    else if |s| < 8 then None
    else
      Pow2Table();
      var b: Byte := FromBits(s[..8]);
      match ReadBytes(s[8..], n - 1)
      case None => None
      case Some(p) => Some(([b] + p.0, p.1))
  }

  lemma {:induction false} ReadWriteBytes(data: seq<Byte>, tail: Stream)
    ensures ReadBytes(WriteBytes(data) + tail, |data|) == Some((data, tail))
  {
    if |data| > 0 {
      var s := WriteBytes(data) + tail;
      assert s[..8] == ToBits(data[0], 8);
      assert s[8..] == WriteBytes(data[1..]) + tail;
      Pow2Table();
      FromBitsOfToBits(data[0], 8);
      assert FromBits(s[..8]) == data[0];
      ReadWriteBytes(data[1..], tail);
      assert ReadBytes(s[8..], |data| - 1) == Some((data[1..], tail));
      assert [data[0]] + data[1..] == data;
    }
  }

  /** A packed uint32 on load: the low 32 bits of the packed value. */
  function ReadPackedU32(s: Stream): (r: Option<(nat, Stream)>)
    ensures r.Some? ==> r.value.0 < U32_LIMIT && |r.value.1| < |s|
  {
    match ReadPacked(s)
    case None => None
    case Some(p) => Some((p.0 % U32_LIMIT, p.1))
  }

  lemma ReadWritePackedU32(n: nat, tail: Stream)
    requires n < U32_LIMIT
    ensures ReadPackedU32(WritePacked(n) + tail) == Some((n, tail))
  {
    ReadWritePacked(n, tail);
    DivUnique(n, U32_LIMIT, 0, n);
  }

  /** NetSerialize on save: ID, DataSize and the byte count packed, then the bytes. */
  function WriteReplicatedInput(r: ReplicatedInput): (s: Stream)
    requires WellFormed(r)
    ensures |s| >= 24 + 8 * |r.data|
  {
    WritePacked(r.id) + WritePacked(r.dataSize) + WritePacked(|r.data|) + WriteBytes(r.data)
  }

  /** NetSerialize on load: the same fields in the same order; None when the archive runs short. */
  function ReadReplicatedInput(s: Stream): (r: Option<(ReplicatedInput, Stream)>)
    ensures r.Some? ==> WellFormed(r.value.0) && |r.value.1| < |s|
  {
    match ReadPackedU32(s)
    case None => None
    case Some(id) =>
      match ReadPackedU32(id.1)
      case None => None
      case Some(size) =>
        match ReadPackedU32(size.1)
        case None => None
        case Some(num) =>
          match ReadBytes(num.1, num.0)
          case None => None
          case Some(bytes) => Some((ReplicatedInput(id.0, size.0, bytes.0), bytes.1))
  }

  /** Reading succeeds when each field reads in turn from where the last one stopped. */
  lemma ReadFieldsInTurn(s: Stream, id: nat, size: nat, num: nat, data: seq<Byte>,
                         s1: Stream, s2: Stream, s3: Stream, tail: Stream)
    requires ReadPackedU32(s) == Some((id, s1)) && ReadPackedU32(s1) == Some((size, s2))
    requires ReadPackedU32(s2) == Some((num, s3)) && ReadBytes(s3, num) == Some((data, tail))
    ensures ReadReplicatedInput(s) == Some((ReplicatedInput(id, size, data), tail))
  {
  }

  lemma WriteReplicatedInputSplits(r: ReplicatedInput, tail: Stream)
    requires WellFormed(r)
    ensures WriteReplicatedInput(r) + tail
      == WritePacked(r.id) + (WritePacked(r.dataSize) + (WritePacked(|r.data|) + (WriteBytes(r.data) + tail)))
  {
  }

  /** Reading restores exactly what was written and leaves what followed. */
  lemma ReplicatedInputRoundTrips(r: ReplicatedInput, tail: Stream)
    requires WellFormed(r)
    ensures ReadReplicatedInput(WriteReplicatedInput(r) + tail) == Some((r, tail))
  {
    var afterNum := WriteBytes(r.data) + tail;
    var afterSize := WritePacked(|r.data|) + afterNum;
    var afterId := WritePacked(r.dataSize) + afterSize;
    WriteReplicatedInputSplits(r, tail);
    ReadWritePackedU32(r.id, afterId);
    ReadWritePackedU32(r.dataSize, afterSize);
    ReadWritePackedU32(|r.data|, afterNum);
    ReadWriteBytes(r.data, tail);
    ReadFieldsInTurn(WriteReplicatedInput(r) + tail, r.id, r.dataSize, |r.data|, r.data, afterId, afterSize, afterNum, tail);
  }
}
