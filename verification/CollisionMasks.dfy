/**
 * Collision policy carried in each body's user data: 32-bit response masks
 * built from a per-channel response table, the pairwise "any", "blocking"
 * and "overlapping" tests, the magic-number guard on user data, and the
 * packing of a 64-bit pointer into two 32-bit collision group ids.
 */
module CollisionMasks {
  import opened Common
  import opened Bits

  const NUM_CHANNELS: nat := 32
  const MAGIC_VALUE: nat := 0xB011E7DA

  datatype Response = Ignore | Overlap | Block

  /** FCollisionResponseContainer: one response per channel 0..31. */
  type ResponseTable = t: seq<Response> | |t| == NUM_CHANNELS
    witness seq(NUM_CHANNELS, _ => Block)

  /** FJoltUserData: only the fields the collision policy reads. */
  datatype UserData = UserData(
    magic: nat,
    objectChannel: nat,
    queryEnabled: bool,
    physicsEnabled: bool,
    blockMask: nat,
    overlapMask: nat,
    combinedMask: nat,
    shapeRadius: real,
    shapeWidth: real,
    shapeHeight: real,
    defaultRestitution: real)

  /** A default-constructed FJoltUserData. */
  function DefaultUserData(): (u: UserData)
    ensures u.magic == MAGIC_VALUE
    ensures u.blockMask == 0 && u.overlapMask == 0 && u.combinedMask == 0
    ensures u.objectChannel == 0 && u.queryEnabled && u.physicsEnabled
    ensures u.shapeRadius == 1.0 && u.shapeWidth == 1.0 && u.shapeHeight == 1.0
    ensures u.defaultRestitution == 1.0
  {
    UserData(MAGIC_VALUE, 0, true, true, 0, 0, 0, 1.0, 1.0, 1.0, 1.0)
  }

  /** The channel bit `1u << (ObjectChannel & 31)`. */
  function ChannelBit(channel: nat): (r: nat)
    ensures r == Pow2(channel % 32)
  {
    LowMaskIsMod(channel, 5);
    Pow2Table();
    Pow2(BitAnd(channel, 31))
  }

  /** `(Mask & Bit) != 0` for the other side's channel. */
  predicate MaskHasChannel(mask: nat, channel: nat)
  {
    BitAnd(mask, ChannelBit(channel)) != 0
  }

  lemma MaskHasChannelIsBit(mask: nat, channel: nat)
    ensures MaskHasChannel(mask, channel) == Bit(mask, channel % 32)
  {
    BitAndSingleBit(mask, channel % 32);
  }

  /** IsAnyCollisionAllowed: both combined masks contain the other's channel. */
  function IsAnyCollisionAllowed(a: Option<UserData>, b: Option<UserData>): (r: bool)
    ensures a.None? || b.None? ==> !r
    ensures a.Some? && b.Some? ==>
      (r <==> Bit(a.value.combinedMask, b.value.objectChannel % 32) &&
              Bit(b.value.combinedMask, a.value.objectChannel % 32))
  {
    if a.None? || b.None? then false
    else
      MaskHasChannelIsBit(a.value.combinedMask, b.value.objectChannel);
      MaskHasChannelIsBit(b.value.combinedMask, a.value.objectChannel);
      MaskHasChannel(a.value.combinedMask, b.value.objectChannel) &&
      MaskHasChannel(b.value.combinedMask, a.value.objectChannel)
  }

  /** IsBlockingCollisionAllowed: both block masks contain the other's channel. */
  function IsBlockingCollisionAllowed(a: Option<UserData>, b: Option<UserData>): (r: bool)
    ensures a.None? || b.None? ==> !r
    ensures a.Some? && b.Some? ==>
      (r <==> Bit(a.value.blockMask, b.value.objectChannel % 32) &&
              Bit(b.value.blockMask, a.value.objectChannel % 32))
  {
    if a.None? || b.None? then false
    else
      MaskHasChannelIsBit(a.value.blockMask, b.value.objectChannel);
      MaskHasChannelIsBit(b.value.blockMask, a.value.objectChannel);
      MaskHasChannel(a.value.blockMask, b.value.objectChannel) &&
      MaskHasChannel(b.value.blockMask, a.value.objectChannel)
  }

  /** IsOverlappingCollisionAllowed: either overlap mask contains the other's channel. */
  function IsOverlappingCollisionAllowed(a: Option<UserData>, b: Option<UserData>): (r: bool)
    ensures a.None? || b.None? ==> !r
    ensures a.Some? && b.Some? ==>
      (r <==> Bit(a.value.overlapMask, b.value.objectChannel % 32) ||
              Bit(b.value.overlapMask, a.value.objectChannel % 32))
  {
    if a.None? || b.None? then false
    else
      MaskHasChannelIsBit(a.value.overlapMask, b.value.objectChannel);
      MaskHasChannelIsBit(b.value.overlapMask, a.value.objectChannel);
      MaskHasChannel(a.value.overlapMask, b.value.objectChannel) ||
      MaskHasChannel(b.value.overlapMask, a.value.objectChannel)
  }

  /** A physics body as the filters see it: the user data its pointer refers to. */
  datatype Body = Body(userData: Option<UserData>)

  /** The Body overload: null bodies never overlap; otherwise compare their user data. */
  function IsOverlappingBodiesAllowed(a: Option<Body>, b: Option<Body>): (r: bool)
    ensures a.None? || b.None? ==> !r
    ensures a.Some? && b.Some? ==> r == IsOverlappingCollisionAllowed(a.value.userData, b.value.userData)
  {
    if a.None? || b.None? then false
    else IsOverlappingCollisionAllowed(a.value.userData, b.value.userData)
  }

  /** GetUserData: null unless the body exists and its data carries the magic number. */
  function GetUserData(obj: Option<Body>): (r: Option<UserData>)
    ensures r.Some? <==> obj.Some? && obj.value.userData.Some? && obj.value.userData.value.magic == MAGIC_VALUE
    ensures r.Some? ==> r == obj.value.userData
  {
    if obj.None? then None
    else if obj.value.userData.None? then None
    else if obj.value.userData.value.magic == MAGIC_VALUE then obj.value.userData
    else None
  }

  lemma AnyCollisionSymmetric(a: Option<UserData>, b: Option<UserData>)
    ensures IsAnyCollisionAllowed(a, b) == IsAnyCollisionAllowed(b, a)
  {
  }

  lemma BlockingCollisionSymmetric(a: Option<UserData>, b: Option<UserData>)
    ensures IsBlockingCollisionAllowed(a, b) == IsBlockingCollisionAllowed(b, a)
  {
  }

  lemma OverlappingCollisionSymmetric(a: Option<UserData>, b: Option<UserData>)
    ensures IsOverlappingCollisionAllowed(a, b) == IsOverlappingCollisionAllowed(b, a)
  {
  }

  // ---------------------------------------------------------------------
  // BuildResponseMasks
  // ---------------------------------------------------------------------

  /** What BuildResponseMasks promises about the three masks. */
  ghost predicate MasksDescribe(t: ResponseTable, block: nat, overlap: nat, combined: nat)
  {
    block < U32_LIMIT && overlap < U32_LIMIT && combined < U32_LIMIT &&
    (forall i: nat :: i < NUM_CHANNELS ==>
      (Bit(combined, i) <==> t[i] != Ignore) &&
      (Bit(block, i) <==> t[i] == Block) &&
      (Bit(overlap, i) <==> t[i] == Overlap)) &&
    (forall i: nat :: i >= NUM_CHANNELS ==> !Bit(combined, i) && !Bit(block, i) && !Bit(overlap, i))
  }

  /**
   * BuildResponseMasks: channel i sets bit i of Combined unless ignored,
   * and bit i of Block or Overlap according to its response.
   */
  method BuildResponseMasks(t: ResponseTable) returns (block: nat, overlap: nat, combined: nat)
    ensures MasksDescribe(t, block, overlap, combined)
  {
    block, overlap, combined := 0, 0, 0;
    var i: nat := 0;
    while i < NUM_CHANNELS
      invariant i <= NUM_CHANNELS
      invariant block < Pow2(i) && overlap < Pow2(i) && combined < Pow2(i)
      invariant forall j: nat :: j < i ==>
        (Bit(combined, j) <==> t[j] != Ignore) &&
        (Bit(block, j) <==> t[j] == Block) &&
        (Bit(overlap, j) <==> t[j] == Overlap)
    {
      HighBitsClear(combined, i, i);
      HighBitsClear(block, i, i);
      HighBitsClear(overlap, i, i);
      if t[i] != Ignore {
        combined := AddBit(combined, i);
      }
      match t[i] {
        case Block => block := AddBit(block, i);
        case Overlap => overlap := AddBit(overlap, i);
        case Ignore =>
      }
      Pow2Mono(i, i + 1);
      i := i + 1;
    }
    Pow2Table();
    forall j: nat | j >= NUM_CHANNELS
      ensures !Bit(combined, j) && !Bit(block, j) && !Bit(overlap, j)
    {
      HighBitsClear(combined, 32, j);
      HighBitsClear(block, 32, j);
      HighBitsClear(overlap, 32, j);
    }
  }

  /** `Mask |= 1u << i` on a mask that has no bit at or above i. */
  function AddBit(mask: nat, i: nat): (r: nat)
    requires mask < Pow2(i)
    ensures r == mask + Pow2(i)
    ensures r < Pow2(i + 1)
    ensures Bit(r, i)
    ensures forall j: nat :: j != i ==> Bit(r, j) == Bit(mask, j)
  {
    OrOfDisjointIsSum(1, mask, i);
    BitOrSymmetric(mask, Pow2(i));
    forall j: nat ensures Bit(BitOr(mask, Pow2(i)), j) == (Bit(mask, j) || j == i) {
      BitOrBit(mask, Pow2(i), j);
      Pow2Bit(i, j);
    }
    HighBitsClear(mask, i, i);
    BitOr(mask, Pow2(i))
  }

  lemma {:induction false} BitOrSymmetric(x: nat, y: nat)
    ensures BitOr(x, y) == BitOr(y, x)
  {
    if x != 0 && y != 0 {
      BitOrSymmetric(x / 2, y / 2);
    }
  }

  /** Block and Overlap never share a bit, and both lie inside Combined. */
  lemma ResponseMasksPartition(t: ResponseTable, block: nat, overlap: nat, combined: nat)
    requires MasksDescribe(t, block, overlap, combined)
    ensures BitAnd(block, overlap) == 0
    ensures BitAnd(block, combined) == block
    ensures BitAnd(overlap, combined) == overlap
  {
    forall i: nat ensures Bit(BitAnd(block, overlap), i) == Bit(0, i) {
      BitAndBit(block, overlap, i);
      ZeroHasNoBits(i);
    }
    BitsDetermineValue(BitAnd(block, overlap), 0);
    forall i: nat ensures Bit(BitAnd(block, combined), i) == Bit(block, i) {
      BitAndBit(block, combined, i);
    }
    BitsDetermineValue(BitAnd(block, combined), block);
    forall i: nat ensures Bit(BitAnd(overlap, combined), i) == Bit(overlap, i) {
      BitAndBit(overlap, combined, i);
    }
    BitsDetermineValue(BitAnd(overlap, combined), overlap);
  }

  /**
   * For user data whose masks come from BuildResponseMasks, a blocking pair
   * is also an "any" pair.
   */
  lemma BlockingImpliesAny(ta: ResponseTable, tb: ResponseTable, a: UserData, b: UserData)
    requires MasksDescribe(ta, a.blockMask, a.overlapMask, a.combinedMask)
    requires MasksDescribe(tb, b.blockMask, b.overlapMask, b.combinedMask)
    ensures IsBlockingCollisionAllowed(Some(a), Some(b)) ==> IsAnyCollisionAllowed(Some(a), Some(b))
  {
  }

  // ---------------------------------------------------------------------
  // Pointer packing into two group ids
  // ---------------------------------------------------------------------

  const U64_LIMIT: nat := 0x1_0000_0000_0000_0000

  /** PackDataToGroupIDs: (P & 0xFFFFFFFF, (P >> 32) & 0xFFFFFFFF). */
  function PackDataToGroupIDs(p: nat): (r: (nat, nat))
    requires p < U64_LIMIT
    ensures r.0 < U32_LIMIT && r.1 < U32_LIMIT
  {
    LowMaskIsMod(p, 32);
    LowMaskIsMod(Shr(p, 32), 32);
    Pow2Table();
    (BitAnd(p, U32_LIMIT - 1), BitAnd(Shr(p, 32), U32_LIMIT - 1))
  }

  /** UnpackDataFromGroupIDs: (Hi << 32) | Lo. */
  function UnpackDataFromGroupIDs(lo: nat, hi: nat): (p: nat)
    requires lo < U32_LIMIT && hi < U32_LIMIT
    ensures p < U64_LIMIT
  {
    Pow2Table();
    OrOfDisjointIsSum(hi, lo, 32);
    BitOr(Shl(hi, 32), lo)
  }

  /** Unpacking the packed halves restores the original 64-bit value. */
  lemma UnpackInvertsPack(p: nat)
    requires p < U64_LIMIT
    ensures var ids := PackDataToGroupIDs(p); UnpackDataFromGroupIDs(ids.0, ids.1) == p
  {
    Pow2Table();
    var ids := PackDataToGroupIDs(p);
    LowMaskIsMod(p, 32);
    LowMaskIsMod(Shr(p, 32), 32);
    ShrIsDiv(p, 32);
    assert ids.0 == p % U32_LIMIT;
    assert p / U32_LIMIT < U32_LIMIT;
    assert ids.1 == p / U32_LIMIT;
    OrOfDisjointIsSum(ids.1, ids.0, 32);
  }

  /** Packing the unpacked pointer gives back both ids. */
  lemma PackInvertsUnpack(lo: nat, hi: nat)
    requires lo < U32_LIMIT && hi < U32_LIMIT
    ensures PackDataToGroupIDs(UnpackDataFromGroupIDs(lo, hi)) == (lo, hi)
  {
    var p := UnpackDataFromGroupIDs(lo, hi);
    assert p == hi * U32_LIMIT + lo by {
      Pow2Table();
      OrOfDisjointIsSum(hi, lo, 32);
    }
    PackOfSum(p, lo, hi);
  }

  lemma PackOfSum(p: nat, lo: nat, hi: nat)
    requires lo < U32_LIMIT && hi < U32_LIMIT && p == hi * U32_LIMIT + lo
    ensures p < U64_LIMIT && PackDataToGroupIDs(p) == (lo, hi)
  {
    Pow2Table();
    DivUnique(p, U32_LIMIT, hi, lo);
    LowMaskIsMod(p, 32);
    ShrIsDiv(p, 32);
    LowMaskIsMod(hi, 32);
    DivUnique(hi, U32_LIMIT, 0, hi);
  }
}
