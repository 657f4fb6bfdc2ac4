/**
 * EJoltNetworkPredictionService: one bit per internal service, the fixed
 * services in the low eleven bits and the independent ones above them, and
 * the two group masks the registry tests against. Also the defaults of the
 * per-instance record that carries a simulation's service mask.
 */
module ServiceFlags {
  import opened Common
  import opened Bits

  datatype Service =
    | FixedServerRPC | FixedRollback | FixedPhysicsRollback | FixedExtrapolate | FixedInterpolate
    | FixedInputLocal | FixedInputRemote | FixedTick | FixedPhysics | FixedSmoothing | FixedFinalize
    | ServerRPC | IndependentRollback | IndependentPhysicsRollback | IndependentExtrapolate
    | IndependentInterpolate | IndependentLocalInput | IndependentLocalTick | IndependentLocalPhysics
    | IndependentRemoteTick | IndependentRemotePhysics | IndependentSmoothingFinalize
    | IndependentLocalFinalize | IndependentRemoteFinalize

  const NUM_SERVICES: nat := 24

  /** The shift of each enumerator. */
  function Index(s: Service): (i: nat)
    ensures i < NUM_SERVICES
  {
    match s
    case FixedServerRPC => 0
    case FixedRollback => 1
    case FixedPhysicsRollback => 2
    case FixedExtrapolate => 3
    case FixedInterpolate => 4
    case FixedInputLocal => 5
    case FixedInputRemote => 6
    case FixedTick => 7
    case FixedPhysics => 8
    case FixedSmoothing => 9
    case FixedFinalize => 10
    case ServerRPC => 11
    case IndependentRollback => 12
    case IndependentPhysicsRollback => 13
    case IndependentExtrapolate => 14
    case IndependentInterpolate => 15
    case IndependentLocalInput => 16
    case IndependentLocalTick => 17
    case IndependentLocalPhysics => 18
    case IndependentRemoteTick => 19
    case IndependentRemotePhysics => 20
    case IndependentSmoothingFinalize => 21
    case IndependentLocalFinalize => 22
    case IndependentRemoteFinalize => 23
  }

  /** The service at a bit position. */
  function FromIndex(i: nat): (s: Service)
    requires i < NUM_SERVICES
    ensures Index(s) == i
  {
    [FixedServerRPC, FixedRollback, FixedPhysicsRollback, FixedExtrapolate, FixedInterpolate,
     FixedInputLocal, FixedInputRemote, FixedTick, FixedPhysics, FixedSmoothing, FixedFinalize,
     ServerRPC, IndependentRollback, IndependentPhysicsRollback, IndependentExtrapolate,
     IndependentInterpolate, IndependentLocalInput, IndependentLocalTick, IndependentLocalPhysics,
     IndependentRemoteTick, IndependentRemotePhysics, IndependentSmoothingFinalize,
     IndependentLocalFinalize, IndependentRemoteFinalize][i]
  }

  /** Different services sit at different bits. */
  lemma IndexInjective(s: Service, t: Service)
    ensures Index(s) == Index(t) <==> s == t
  {
    if Index(s) == Index(t) {
      assert FromIndex(Index(s)) == s by {
        match s
        case _ =>
      }
      assert FromIndex(Index(t)) == t by {
        match t
        case _ =>
      }
    }
  }

  /** The enumerator's value. */
  function Flag(s: Service): (f: nat)
  {
    Pow2(Index(s))
  }

  /** Every flag is a single bit, and that bit is the service's own. */
  lemma FlagIsOwnBit(s: Service, t: Service, i: nat)
    ensures Bit(Flag(s), i) <==> i == Index(s)
    ensures Bit(Flag(s), Index(t)) <==> s == t
  {
    Pow2Bit(Index(s), i);
    Pow2Bit(Index(s), Index(t));
    IndexInjective(s, t);
  }

  /** The services whose enumerator name starts with Fixed. */
  predicate IsFixedService(s: Service)
  {
    s.FixedServerRPC? || s.FixedRollback? || s.FixedPhysicsRollback? || s.FixedExtrapolate? ||
    s.FixedInterpolate? || s.FixedInputLocal? || s.FixedInputRemote? || s.FixedTick? ||
    s.FixedPhysics? || s.FixedSmoothing? || s.FixedFinalize?
  }

  const MAX_FIXED: nat := Flag(FixedFinalize)
  const MAX_INDEPENDENT: nat := Flag(IndependentRemoteFinalize)

  /** ((MAX_FIXED << 1) - 1). */
  const ANY_FIXED: nat := Shl(MAX_FIXED, 1) - 1

  /** (((MAX_INDEPENDENT << 1) - 1) & ~ANY_FIXED), on the uint32 underlying type. */
  const ANY_INDEPENDENT: nat := BitAnd(Shl(MAX_INDEPENDENT, 1) - 1, BitNot32(ANY_FIXED))

  /** ANY_FIXED is exactly bits 0 .. 10. */
  lemma AnyFixedBits(i: nat)
    ensures Bit(ANY_FIXED, i) <==> i < 11
  {
    assert ANY_FIXED == Pow2(11) - 1;
    LowOnesBit(11, i);
  }

  /** Bits m .. n-1: the low n bits with the low m bits cleared in 32-bit arithmetic. */
  lemma BitRange(low: nat, cleared: nat, n: nat, m: nat, i: nat)
    requires m <= n <= 32 && low == Pow2(n) - 1 && cleared == Pow2(m) - 1
    ensures cleared < U32_LIMIT
    ensures Bit(BitAnd(low, BitNot32(cleared)), i) <==> m <= i < n
  {
    Pow2Mono(m, 32);
    Pow2Table();
    BitAndBit(low, BitNot32(cleared), i);
    LowOnesBit(n, i);
    LowOnesBit(m, i);
    BitNot32Bit(cleared, i);
  }

  /** The group masks as ranges of low ones. */
  lemma GroupMasksAsRanges()
    ensures ANY_FIXED == Pow2(11) - 1
    ensures Shl(MAX_INDEPENDENT, 1) - 1 == Pow2(24) - 1
  {
  }

  /** ANY_INDEPENDENT is exactly bits 11 .. 23. */
  lemma AnyIndependentBits(i: nat)
    ensures Bit(ANY_INDEPENDENT, i) <==> 11 <= i < 24
  {
    GroupMasksAsRanges();
    BitRange(Shl(MAX_INDEPENDENT, 1) - 1, ANY_FIXED, 24, 11, i);
  }

  /** A service is in exactly one group, and the group matches its name. */
  lemma ServiceGroup(s: Service)
    ensures IsFixedService(s) <==> Bit(ANY_FIXED, Index(s))
    ensures !IsFixedService(s) <==> Bit(ANY_INDEPENDENT, Index(s))
  {
    AnyFixedBits(Index(s));
    AnyIndependentBits(Index(s));
  }

  /** The two groups share no bit. */
  lemma GroupsDisjoint()
    ensures BitAnd(ANY_FIXED, ANY_INDEPENDENT) == 0
  {
    forall i: nat
      ensures Bit(BitAnd(ANY_FIXED, ANY_INDEPENDENT), i) == Bit(0, i)
    {
      BitAndBit(ANY_FIXED, ANY_INDEPENDENT, i);
      AnyFixedBits(i);
      AnyIndependentBits(i);
      ZeroHasNoBits(i);
    }
    BitsDetermineValue(BitAnd(ANY_FIXED, ANY_INDEPENDENT), 0);
  }

  // ---------------------------------------------------------------------
  // Masks
  // ---------------------------------------------------------------------

  /** A mask only uses the 24 service bits. */
  predicate ValidMask(m: nat)
  {
    m < Pow2(NUM_SERVICES)
  }

  /** EnumHasAllFlags(Mask, Service) for a single service. */
  predicate HasFlag(m: nat, s: Service)
  {
    Bit(m, Index(s))
  }

  /** EnumHasAnyFlags(Mask, ANY_FIXED). */
  predicate HasAnyFixed(m: nat)
  {
    BitAnd(m, ANY_FIXED) != 0
  }

  /** EnumHasAnyFlags(Mask, ANY_INDEPENDENT). */
  predicate HasAnyIndependent(m: nat)
  {
    BitAnd(m, ANY_INDEPENDENT) != 0
  }

  /** Mask |= Service. */
  function AddFlag(m: nat, s: Service): (r: nat)
    requires ValidMask(m)
    ensures ValidMask(r)
    ensures forall t :: HasFlag(r, t) <==> HasFlag(m, t) || t == s
  {
    var r := BitOr(m, Flag(s));
    forall t
      ensures HasFlag(r, t) <==> HasFlag(m, t) || t == s
    {
      BitOrBit(m, Flag(s), Index(t));
      FlagIsOwnBit(s, t, Index(t));
    }
    forall i: nat | i >= NUM_SERVICES
      ensures !Bit(r, i)
    {
      BitOrBit(m, Flag(s), i);
      HighBitsClear(m, NUM_SERVICES, i);
      Pow2Bit(Index(s), i);
    }
    BelowPow2IfHighBitsClear(r, NUM_SERVICES);
    r
  }

  /** The mask of a list of services, OR-ed in one by one. */
  function MaskOf(ss: seq<Service>): (m: nat)
    ensures ValidMask(m)
    ensures forall t :: HasFlag(m, t) <==> t in ss
  {
    if |ss| == 0 then
      forall t
        ensures !HasFlag(0, t)
      {
        ZeroHasNoBits(Index(t));
      }
      0
    else
      var m := AddFlag(MaskOf(ss[..|ss| - 1]), ss[|ss| - 1]);
      assert ss == ss[..|ss| - 1] + [ss[|ss| - 1]];
      m
  }

  /** A value with no bit at or above n is below 2^n. */
  lemma BelowPow2IfHighBitsClear(x: nat, n: nat)
    requires forall i: nat :: i >= n ==> !Bit(x, i)
    ensures x < Pow2(n)
  {
    if x > 0 {
      BitLenBounds(x);
      if BitLen(x) > n {
        assert false;
      }
      Pow2Mono(BitLen(x), n);
    }
  }

  /** A mask is not zero exactly when some service's bit is set. */
  lemma NonzeroHasFlag(m: nat)
    requires ValidMask(m)
    ensures m != 0 <==> exists s :: HasFlag(m, s)
  {
    if m != 0 {
      BitLenBounds(m);
      var i := BitLen(m) - 1;
      if i >= NUM_SERVICES {
        HighBitsClear(m, NUM_SERVICES, i);
      }
      assert HasFlag(m, FromIndex(i));
    } else {
      forall s
        ensures !HasFlag(m, s)
      {
        ZeroHasNoBits(Index(s));
      }
    }
  }

  /** The group tests hold exactly when a service of that group is in the mask. */
  lemma HasAnyIff(m: nat)
    requires ValidMask(m)
    ensures HasAnyFixed(m) <==> exists s :: IsFixedService(s) && HasFlag(m, s)
    ensures HasAnyIndependent(m) <==> exists s :: !IsFixedService(s) && HasFlag(m, s)
  {
    var f := BitAnd(m, ANY_FIXED);
    var d := BitAnd(m, ANY_INDEPENDENT);
    assert ValidMask(f) && ValidMask(d);
    forall s
      ensures HasFlag(f, s) <==> IsFixedService(s) && HasFlag(m, s)
      ensures HasFlag(d, s) <==> !IsFixedService(s) && HasFlag(m, s)
    {
      BitAndBit(m, ANY_FIXED, Index(s));
      BitAndBit(m, ANY_INDEPENDENT, Index(s));
      ServiceGroup(s);
    }
    NonzeroHasFlag(f);
    NonzeroHasFlag(d);
  }

  /** `Mask & ~Other` as the registry computes it. */
  function MaskMinus(m: nat, other: nat): (r: nat)
    requires ValidMask(m) && ValidMask(other)
    ensures ValidMask(r)
    ensures forall s :: HasFlag(r, s) <==> HasFlag(m, s) && !HasFlag(other, s)
  {
    Pow2Table();
    Pow2Mono(NUM_SERVICES, 32);
    var r := BitAnd(m, BitNot32(other));
    forall s
      ensures HasFlag(r, s) <==> HasFlag(m, s) && !HasFlag(other, s)
    {
      BitAndBit(m, BitNot32(other), Index(s));
      BitNot32Bit(other, Index(s));
    }
    r
  }

  // ---------------------------------------------------------------------
  // TInstanceData defaults
  // ---------------------------------------------------------------------

  datatype NetRole = RoleNone | SimulatedProxy | AutonomousProxy | Authority

  /** The role and service mask of a registered instance (the model info, cue dispatcher and trace id are left out). */
  datatype InstanceData = InstanceData(netRole: NetRole, serviceMask: nat)

  /** A fresh instance: no role, subscribed to nothing. */
  function NewInstanceData(): (d: InstanceData)
    ensures d.netRole == RoleNone && d.serviceMask == 0
    ensures forall s :: !HasFlag(d.serviceMask, s)
  {
    forall s
      ensures !HasFlag(0, s)
    {
      ZeroHasNoBits(Index(s));
    }
    InstanceData(RoleNone, 0)
  }
}
