/**
 * The physics world's body creation: the pure mapping from the engine-side
 * body options to the physics library's creation settings, and the two
 * uint32 body id counters handed out by the static and dynamic collider
 * factories.
 */
module BodySettings {
  import opened Common
  import Conversions
  import LayerFilters
  import CollisionMasks
  import Bits

  datatype ShapeType = StaticShape | DynamicShape | KinematicShape
  /**
   * EGravityOverrideType, plus the FROM_MOVER value the body factory tests
   * for (its declaration is not part of this model).
   */
  datatype GravityOverrideType = NoGravityOverride | StaticVector | VectorCurve | StaticFloat | FloatCurve | FromMover
  datatype MotionType = Static | Dynamic | Kinematic

  /** The body options (FJoltBodyOptions), without the material and curve assets. */
  datatype BodyOptions = BodyOptions(
    shapeType: ShapeType,
    automaticallyActivate: bool,
    canBodyEverSleep: bool,
    usePhysicsMaterial: bool,
    generateOverlapEventsInJolt: bool,
    generateOverlapEventsInChaos: bool,
    generateCollisionEventsInJolt: bool,
    generateCollisionEventsInChaos: bool,
    keepShapeVertical: bool,
    restitution: real,
    friction: real,
    mass: real,
    gravityOverrideType: GravityOverrideType,
    gravityOverride: Conversions.Vec3,
    gravityScaleStatic: real)

  /** The member initialisers of FJoltBodyOptions. */
  function DefaultBodyOptions(): (o: BodyOptions)
    ensures o.shapeType == StaticShape && o.gravityOverrideType == NoGravityOverride
    ensures o.generateOverlapEventsInJolt && o.generateCollisionEventsInJolt
    ensures !o.automaticallyActivate && !o.canBodyEverSleep && !o.keepShapeVertical
    ensures o.mass == 10.0 && o.restitution == 1.0 && o.friction == 1.0
    ensures o.gravityOverride == Conversions.Vec3(0.0, 0.0, -980.0)
  {
    BodyOptions(StaticShape, false, false, false, true, false, true, false, false,
      1.0, 1.0, 10.0, NoGravityOverride, Conversions.Vec3(0.0, 0.0, -980.0), 1.0)
  }

  /** Which degrees of freedom the body keeps: all, or translation plus yaw about the up axis. */
  datatype AllowedDofs = AllDofs | TranslationAndRotationY

  /** How the body's mass properties are obtained. */
  datatype MassOverride = CalculateMassAndInertia | ScaledToMass(mass: real)

  /** The fields of BodyCreationSettings that the mapping sets. */
  datatype CreationSettings = CreationSettings(
    position: Conversions.Vec3,
    rotation: Conversions.Quat,
    motionType: MotionType,
    layer: nat,
    allowSleeping: bool,
    massOverride: MassOverride,
    allowedDofs: AllowedDofs,
    isSensor: bool,
    gravityFactor: real,
    linearDamping: real,
    angularDamping: real,
    groupId: nat,
    subGroupId: nat)

  /** The physics library's own defaults for fields the mapping may leave alone. */
  const DEFAULT_GRAVITY_FACTOR: real := 1.0
  const DEFAULT_LINEAR_DAMPING: real := 0.05
  const DEFAULT_ANGULAR_DAMPING: real := 0.05

  /** The motion type and object layer a shape type maps to. */
  function MotionAndLayer(t: ShapeType): (r: (MotionType, nat))
    ensures t == StaticShape <==> r.0 == Static
    ensures t == DynamicShape <==> r.0 == Dynamic
    ensures t == KinematicShape <==> r.0 == Kinematic
    ensures r.1 == (if t == StaticShape then LayerFilters.NON_MOVING else LayerFilters.MOVING)
  {
    match t
    case StaticShape => (Static, LayerFilters.NON_MOVING)
    case DynamicShape => (Dynamic, LayerFilters.MOVING)
    case KinematicShape => (Kinematic, LayerFilters.MOVING)
  }

  /**
   * MakeBodyCreationSettings. `userData` is the address of the body's user
   * data, split into the collision group's two ids.
   */
  function MakeBodyCreationSettings(location: Conversions.Vec3, rotation: Conversions.Quat, origin: Conversions.Vec3,
                                    o: BodyOptions, userData: nat): (s: CreationSettings)
    requires userData < CollisionMasks.U64_LIMIT
    ensures (s.motionType, s.layer) == MotionAndLayer(o.shapeType)
    ensures s.position == Conversions.ToJoltPosition(location, origin)
    ensures s.rotation == Conversions.ToJoltRotation(rotation)
    ensures s.allowSleeping == o.canBodyEverSleep
    ensures s.massOverride == (if o.shapeType == DynamicShape then ScaledToMass(o.mass) else CalculateMassAndInertia)
    ensures s.allowedDofs == TranslationAndRotationY <==> o.shapeType == DynamicShape && o.keepShapeVertical
    ensures s.isSensor <==> o.generateOverlapEventsInJolt && !o.generateCollisionEventsInJolt
    ensures o.gravityOverrideType == FromMover ==>
      s.gravityFactor == 0.0 && s.linearDamping == 0.0 && s.angularDamping == 0.0
    ensures o.gravityOverrideType != FromMover ==>
      s.gravityFactor == DEFAULT_GRAVITY_FACTOR && s.linearDamping == DEFAULT_LINEAR_DAMPING &&
      s.angularDamping == DEFAULT_ANGULAR_DAMPING
    ensures s.groupId < Bits.U32_LIMIT && s.subGroupId < Bits.U32_LIMIT
    ensures CollisionMasks.UnpackDataFromGroupIDs(s.groupId, s.subGroupId) == userData
  {
    var ml := MotionAndLayer(o.shapeType);
    var dynamic := o.shapeType == DynamicShape;
    var ids := CollisionMasks.PackDataToGroupIDs(userData);
    CollisionMasks.UnpackInvertsPack(userData);
    CreationSettings(
      Conversions.ToJoltPosition(location, origin),
      Conversions.ToJoltRotation(rotation),
      ml.0, ml.1,
      o.canBodyEverSleep,
      if dynamic then ScaledToMass(o.mass) else CalculateMassAndInertia,
      if dynamic && o.keepShapeVertical then TranslationAndRotationY else AllDofs,
      o.generateOverlapEventsInJolt && !o.generateCollisionEventsInJolt,
      if o.gravityOverrideType == FromMover then 0.0 else DEFAULT_GRAVITY_FACTOR,
      if o.gravityOverrideType == FromMover then 0.0 else DEFAULT_LINEAR_DAMPING,
      if o.gravityOverrideType == FromMover then 0.0 else DEFAULT_ANGULAR_DAMPING,
      ids.0, ids.1)
  }

  // ---------------------------------------------------------------------
  // Body id counters
  // ---------------------------------------------------------------------

  /** The default first ids of the static and dynamic ranges (MaxBodies 65536 split in thirds). */
  const STATIC_BODY_ID_START: int := 21845
  const DYNAMIC_BODY_ID_START: int := 43690

  /** StaticBodyIDX and DynamicBodyIDX: uint32 counters. */
  datatype BodyIdCounters = BodyIdCounters(staticIdx: nat, dynamicIdx: nat)

  predicate ValidCounters(c: BodyIdCounters)
  {
    c.staticIdx < Bits.U32_LIMIT && c.dynamicIdx < Bits.U32_LIMIT
  }

  /** An int32 setting stored into a uint32 counter. */
  function ToUint32(x: int): (r: nat)
    requires IsInt32(x)
    ensures r < Bits.U32_LIMIT && (r - x) % Bits.U32_LIMIT == 0
  {
    if x >= 0 then x else x + Bits.U32_LIMIT
  }

  /** Initialize: both counters start at their configured first ids. */
  function InitCounters(staticStart: int, dynamicStart: int): (c: BodyIdCounters)
    requires IsInt32(staticStart) && IsInt32(dynamicStart)
    ensures ValidCounters(c)
    ensures staticStart >= 0 ==> c.staticIdx == staticStart
    ensures dynamicStart >= 0 ==> c.dynamicIdx == dynamicStart
  {
    BodyIdCounters(ToUint32(staticStart), ToUint32(dynamicStart))
  }

  /** AddRigidBodyCollider's pre-increment: the new dynamic id is the counter after it wraps up by one. */
  function NextDynamicId(c: BodyIdCounters): (r: (BodyIdCounters, nat))
    requires ValidCounters(c)
    ensures ValidCounters(r.0) && r.0.staticIdx == c.staticIdx && r.0.dynamicIdx == r.1
    ensures r.1 == (c.dynamicIdx + 1) % Bits.U32_LIMIT
  {
    var id := if c.dynamicIdx + 1 == Bits.U32_LIMIT then 0 else c.dynamicIdx + 1;
    (c.(dynamicIdx := id), id)
  }

  /** AddStaticCollider's pre-increment on the static counter. */
  function NextStaticId(c: BodyIdCounters): (r: (BodyIdCounters, nat))
    requires ValidCounters(c)
    ensures ValidCounters(r.0) && r.0.dynamicIdx == c.dynamicIdx && r.0.staticIdx == r.1
    ensures r.1 == (c.staticIdx + 1) % Bits.U32_LIMIT
  {
    var id := if c.staticIdx + 1 == Bits.U32_LIMIT then 0 else c.staticIdx + 1;
    (c.(staticIdx := id), id)
  }

  /** The counters after n dynamic and m static allocations, in any interleaving. */
  function Allocate(c: BodyIdCounters, n: nat, m: nat): (r: BodyIdCounters)
    requires ValidCounters(c)
    ensures ValidCounters(r)
    decreases n + m
  {
    if n > 0 then Allocate(NextDynamicId(c).0, n - 1, m)
    else if m > 0 then Allocate(NextStaticId(c).0, n, m - 1)
    else c
  }

  /** The k-th allocation from a counter returns start + k, wrapped to 32 bits. */
  lemma {:induction false} AllocateCounts(c: BodyIdCounters, n: nat, m: nat)
    requires ValidCounters(c)
    ensures Allocate(c, n, m).dynamicIdx == (c.dynamicIdx + n) % Bits.U32_LIMIT
    ensures Allocate(c, n, m).staticIdx == (c.staticIdx + m) % Bits.U32_LIMIT
    decreases n + m
  {
    if n > 0 {
      var c' := NextDynamicId(c).0;
      AllocateCounts(c', n - 1, m);
      ModAddOne(c.dynamicIdx, n - 1);
    } else if m > 0 {
      var c' := NextStaticId(c).0;
      AllocateCounts(c', n, m - 1);
      ModAddOne(c.staticIdx, m - 1);
    }
  }

  lemma ModAddOne(x: nat, k: nat)
    requires x < Bits.U32_LIMIT
    ensures ((x + 1) % Bits.U32_LIMIT + k) % Bits.U32_LIMIT == (x + k + 1) % Bits.U32_LIMIT
  {
    if x + 1 == Bits.U32_LIMIT {
      assert (x + 1) % Bits.U32_LIMIT == 0;
      assert (x + k + 1) == k + Bits.U32_LIMIT;
    }
  }

  /**
   * With the default ranges, a static id handed out within the first 21845
   * static allocations never equals a dynamic id handed out within the first
   * 2^32 - 43691 dynamic ones: the two ranges stay apart.
   */
  lemma DefaultRangesStayApart(i: nat, j: nat)
    requires 1 <= i <= DYNAMIC_BODY_ID_START - STATIC_BODY_ID_START
    requires 1 <= j < Bits.U32_LIMIT - DYNAMIC_BODY_ID_START
    ensures var c := InitCounters(STATIC_BODY_ID_START, DYNAMIC_BODY_ID_START);
      Allocate(c, 0, i).staticIdx != Allocate(c, j, 0).dynamicIdx
  {
    var c := InitCounters(STATIC_BODY_ID_START, DYNAMIC_BODY_ID_START);
    AllocateCounts(c, 0, i);
    AllocateCounts(c, j, 0);
  }

  /** Successive dynamic ids are pairwise distinct until the counter has gone all the way round. */
  lemma DynamicIdsDistinct(c: BodyIdCounters, i: nat, j: nat)
    requires ValidCounters(c) && i < j <= i + Bits.U32_LIMIT - 1
    ensures Allocate(c, i, 0).dynamicIdx != Allocate(c, j, 0).dynamicIdx
  {
    AllocateCounts(c, i, 0);
    AllocateCounts(c, j, 0);
  }
}
