// The default data structs a character mover simulates with: the per-frame
// inputs (FJoltCharacterDefaultInputs) and the updated component's motion
// state (FJoltUpdatedMotionState), which may be expressed relative to a
// movement base.

module DataModelTypes {
  import opened Common
  import opened Conversions
  import opened MoverTypes
  import opened BasedMovement

  datatype MoveInputType = InvalidInput | DirectionalIntent | VelocityInput | NoInput

  datatype Rotator = Rotator(pitch: real, yaw: real, roll: real)

  const ZERO_ROTATOR: Rotator := Rotator(0.0, 0.0, 0.0)

  function LerpVec(a: Vec3, b: Vec3, t: real): (r: Vec3)
    ensures t == 0.0 ==> r == a
    ensures t == 1.0 ==> r == b
  {
    Vec3(a.x + (b.x - a.x) * t, a.y + (b.y - a.y) * t, a.z + (b.z - a.z) * t)
  }

  /* ---------------- Character inputs ---------------- */

  datatype DefaultInputs = DefaultInputs(
    moveInputType: MoveInputType,
    moveInput: Vec3,
    orientationIntent: Vec3,
    controlRotation: Rotator,
    suggestedMode: string,
    usingMovementBase: bool,
    movementBase: Option<Component>,
    movementBaseBoneName: string,
    jumpJustPressed: bool,
    jumpPressed: bool)

  const DEFAULT_INPUTS: DefaultInputs :=
    DefaultInputs(NoInput, ZERO_VECTOR, ZERO_VECTOR, ZERO_ROTATOR, NAME_NONE, false, None, NAME_NONE, false, false)

  /** Round half up to two decimal places, the precision the move input is
      sent with. */
  function RoundToCents(x: real): (r: real)
    ensures -0.005 < r - x <= 0.005
  {
    ((x * 100.0 + 0.5).Floor as real) / 100.0
  }

  /** A value already on the hundredths grid is left alone by rounding. */
  lemma {:induction false} RoundToCentsIdempotent(x: real)
    ensures RoundToCents(RoundToCents(x)) == RoundToCents(x)
  {
    var n := (x * 100.0 + 0.5).Floor;
    assert RoundToCents(x) * 100.0 == n as real;
    assert (RoundToCents(x) * 100.0 + 0.5).Floor == n;
  }

  function RoundVec(v: Vec3): (r: Vec3)
    ensures -0.005 < r.x - v.x <= 0.005 && -0.005 < r.y - v.y <= 0.005 && -0.005 < r.z - v.z <= 0.005
  {
    Vec3(RoundToCents(v.x), RoundToCents(v.y), RoundToCents(v.z))
  }

  function SetMoveInput(a: DefaultInputs, t: MoveInputType, v: Vec3): (r: DefaultInputs)
    ensures r.moveInputType == t
    // each component is stored within half a hundredth of what was given
    ensures -0.005 < r.moveInput.x - v.x <= 0.005
    ensures -0.005 < r.moveInput.y - v.y <= 0.005
    ensures -0.005 < r.moveInput.z - v.z <= 0.005
    ensures r.(moveInputType := a.moveInputType, moveInput := a.moveInput) == a
  {
    a.(moveInputType := t, moveInput := RoundVec(v))
  }

  /** Storing an input that was read back from a previous SetMoveInput
      changes nothing: what is stored is already at network precision. */
  lemma SetMoveInputIdempotent(a: DefaultInputs, t: MoveInputType, v: Vec3)
    ensures SetMoveInput(SetMoveInput(a, t, v), t, SetMoveInput(a, t, v).moveInput) == SetMoveInput(a, t, v)
  {
    RoundToCentsIdempotent(v.x);
    RoundToCentsIdempotent(v.y);
    RoundToCentsIdempotent(v.z);
  }

  /** The field-by-field comparison of two input structs. */
  predicate SameInputs(a: DefaultInputs, b: DefaultInputs)
  {
    a.moveInputType == b.moveInputType
    && a.moveInput == b.moveInput
    && a.orientationIntent == b.orientationIntent
    && a.controlRotation == b.controlRotation
    && a.suggestedMode == b.suggestedMode
    && a.usingMovementBase == b.usingMovementBase
    && a.movementBase == b.movementBase
    && a.movementBaseBoneName == b.movementBaseBoneName
    && a.jumpJustPressed == b.jumpJustPressed
    && a.jumpPressed == b.jumpPressed
  }

  /** Inputs are reconciled whenever any field differs from the authority. */
  function ShouldReconcileInputs(a: DefaultInputs, authority: DefaultInputs): (r: bool)
    ensures r <==> a != authority
  {
    !SameInputs(a, authority)
  }

  /** The interpolated inputs: discrete fields from the input closest in
      time, continuous ones blended, the movement base left alone. */
  function InterpolateInputs(self: DefaultInputs, from: DefaultInputs, to: DefaultInputs, pct: real,
                             lerpRot: (Rotator, Rotator, real) -> Rotator): (r: DefaultInputs)
    ensures pct < 0.5 ==> r.jumpJustPressed == from.jumpJustPressed && r.jumpPressed == from.jumpPressed
                          && r.suggestedMode == from.suggestedMode && r.moveInputType == from.moveInputType
    ensures pct >= 0.5 ==> r.jumpJustPressed == to.jumpJustPressed && r.jumpPressed == to.jumpPressed
                           && r.suggestedMode == to.suggestedMode && r.moveInputType == to.moveInputType
    ensures r.usingMovementBase == self.usingMovementBase && r.movementBase == self.movementBase
    ensures r.movementBaseBoneName == self.movementBaseBoneName
    ensures r.moveInput == RoundVec(LerpVec(from.moveInput, to.moveInput, pct))
  {
    var closest := if pct < 0.5 then from else to;
    var s := self.(jumpJustPressed := closest.jumpJustPressed,
                   jumpPressed := closest.jumpPressed,
                   suggestedMode := closest.suggestedMode);
    SetMoveInput(s, closest.moveInputType, LerpVec(from.moveInput, to.moveInput, pct))
      .(orientationIntent := LerpVec(from.orientationIntent, to.orientationIntent, pct),
        controlRotation := lerpRot(from.controlRotation, to.controlRotation, pct))
  }

  /** At Pct 1 the interpolation reproduces To (whose move input was stored
      through SetMoveInput), apart from the movement base fields, which
      interpolation never touches. */
  lemma InterpolateInputsReachesTo(self: DefaultInputs, from: DefaultInputs, to: DefaultInputs,
                                   lerpRot: (Rotator, Rotator, real) -> Rotator, v: Vec3)
    requires to.moveInput == RoundVec(v)
    requires forall a, b :: lerpRot(a, b, 1.0) == b
    ensures InterpolateInputs(self, from, to, 1.0, lerpRot)
            == to.(usingMovementBase := self.usingMovementBase,
                   movementBase := self.movementBase,
                   movementBaseBoneName := self.movementBaseBoneName)
  {
    RoundToCentsIdempotent(v.x);
    RoundToCentsIdempotent(v.y);
    RoundToCentsIdempotent(v.z);
  }

  /** Merging a dropped input keeps any jump press it carried; nothing else
      is merged. */
  function MergeInputs(a: DefaultInputs, from: DefaultInputs): (r: DefaultInputs)
    ensures r.jumpJustPressed <==> a.jumpJustPressed || from.jumpJustPressed
    ensures r.jumpPressed <==> a.jumpPressed || from.jumpPressed
    ensures r.(jumpJustPressed := a.jumpJustPressed, jumpPressed := a.jumpPressed) == a
  {
    a.(jumpJustPressed := a.jumpJustPressed || from.jumpJustPressed,
       jumpPressed := a.jumpPressed || from.jumpPressed)
  }

  /** Merging is idempotent and merging into a pressed state never
      releases it. */
  lemma MergeInputsIdempotent(a: DefaultInputs, from: DefaultInputs)
    ensures MergeInputs(MergeInputs(a, from), from) == MergeInputs(a, from)
    ensures a.jumpPressed ==> MergeInputs(a, from).jumpPressed
  {
  }

  /** Decay of inputs carried over to a frame without fresh input; the
      amount is scaled by a console-variable multiplier (1 by default). */
  function DecayInputs(a: DefaultInputs, amount: real, multiplier: real): (r: DefaultInputs)
    ensures r.moveInput == Scale(a.moveInput, 1.0 - amount * multiplier)
    // a single-use jump press survives only a negligible decay
    ensures r.jumpJustPressed <==> a.jumpJustPressed && RealAbs(amount * multiplier) <= SMALL_NUMBER
    ensures r.(moveInput := a.moveInput, jumpJustPressed := a.jumpJustPressed) == a
  {
    var scaled := amount * multiplier;
    a.(moveInput := Scale(a.moveInput, 1.0 - scaled),
       jumpJustPressed := if RealAbs(scaled) <= SMALL_NUMBER then a.jumpJustPressed else false)
  }

  /** No decay changes nothing; full decay stops the move input and drops
      the single-use jump press. */
  lemma DecayEndpoints(a: DefaultInputs, multiplier: real)
    ensures DecayInputs(a, 0.0, multiplier) == a
    ensures multiplier == 1.0 ==> DecayInputs(a, 1.0, multiplier).moveInput == ZERO_VECTOR
    ensures multiplier == 1.0 ==> !DecayInputs(a, 1.0, multiplier).jumpJustPressed
  {
  }

  /** One serialized field of the inputs (quantisation is not modelled). */
  datatype InputField =
    | TypeField(t: MoveInputType)
    | VecField(v: Vec3)
    | RotField(rot: Rotator)
    | NameField(name: string)
    | BitField(bit: bool)
    | BaseField(base: Option<Component>)

  function SaveInputs(a: DefaultInputs): (w: seq<InputField>)
    ensures |w| == if a.usingMovementBase then 10 else 8
    // the base and bone are written only when the base is in use
    ensures a.usingMovementBase <==> w[6].BaseField?
  {
    [TypeField(a.moveInputType), VecField(a.moveInput), VecField(a.orientationIntent),
     RotField(a.controlRotation), NameField(a.suggestedMode), BitField(a.usingMovementBase)]
    + (if a.usingMovementBase then [BaseField(a.movementBase), NameField(a.movementBaseBoneName)] else [])
    + [BitField(a.jumpJustPressed), BitField(a.jumpPressed)]
  }

  function LoadInputs(w: seq<InputField>): (r: Option<DefaultInputs>)
    // loading inputs that do not use a base nulls the base and the bone
    ensures r.Some? && !r.value.usingMovementBase ==>
              r.value.movementBase.None? && r.value.movementBaseBoneName == NAME_NONE
    ensures r.Some? ==> |w| == if r.value.usingMovementBase then 10 else 8
  {
    if |w| < 8 then None
    else
      match (w[0], w[1], w[2], w[3], w[4], w[5])
      case (TypeField(t), VecField(mi), VecField(oi), RotField(cr), NameField(sm), BitField(using)) =>
        if using then
          if |w| != 10 then None
          else
            (match (w[6], w[7], w[8], w[9])
             case (BaseField(b), NameField(bone), BitField(jj), BitField(jp)) =>
               Some(DefaultInputs(t, mi, oi, cr, sm, true, b, bone, jj, jp))
             case _ => None)
        else if |w| != 8 then None
        else
          (match (w[6], w[7])
           case (BitField(jj), BitField(jp)) =>
             Some(DefaultInputs(t, mi, oi, cr, sm, false, None, NAME_NONE, jj, jp))
           case _ => None)
      case _ => None
  }

  /** Inputs survive the wire, except that an unused base is not sent and
      arrives as null with no bone. */
  lemma InputsRoundTrip(a: DefaultInputs)
    ensures a.usingMovementBase ==> LoadInputs(SaveInputs(a)) == Some(a)
    ensures !a.usingMovementBase ==>
              LoadInputs(SaveInputs(a)) == Some(a.(movementBase := None, movementBaseBoneName := NAME_NONE))
  {
    var w := SaveInputs(a);
    if a.usingMovementBase {
      assert w[6] == BaseField(a.movementBase) && w[7] == NameField(a.movementBaseBoneName);
      assert w[8] == BitField(a.jumpJustPressed) && w[9] == BitField(a.jumpPressed);
    } else {
      assert w[6] == BitField(a.jumpJustPressed) && w[7] == BitField(a.jumpPressed);
    }
  }

  /* ---------------- Updated motion state ---------------- */

  /** The kinematic part of the motion state, in the base's space when a
      base is set and in world space otherwise. */
  datatype Kinematics = Kinematics(location: Vec3, orientation: Rotator, velocity: Vec3,
                                   angularVelocity: Vec3, moveDirectionIntent: Vec3)

  datatype MotionState = MotionState(
    kin: Kinematics,
    movementBase: Option<Component>,
    movementBaseBoneName: string,
    movementBasePos: Vec3,
    movementBaseQuat: Quat)

  /** Without a base, the base bookkeeping holds its cleared values. */
  predicate BaseConsistent(s: MotionState)
  {
    s.movementBase.None? ==>
      s.movementBaseBoneName == NAME_NONE && s.movementBasePos == ZERO_VECTOR && s.movementBaseQuat == IDENTITY_QUAT
  }

  function ClearBase(s: MotionState): (r: MotionState)
    ensures r.movementBase.None? && BaseConsistent(r) && r.kin == s.kin
  {
    s.(movementBase := None, movementBaseBoneName := NAME_NONE,
       movementBasePos := ZERO_VECTOR, movementBaseQuat := IDENTITY_QUAT)
  }

  /** Re-reads the base transform; a base whose transform cannot be read is
      dropped. */
  function UpdateCurrentMovementBase(s: MotionState): (r: (MotionState, bool))
    ensures r.1 <==> GetMovementBaseTransform(s.movementBase, s.movementBaseBoneName).ok
    ensures r.1 ==> r.0 == s.(movementBasePos := GetMovementBaseTransform(s.movementBase, s.movementBaseBoneName).location,
                              movementBaseQuat := GetMovementBaseTransform(s.movementBase, s.movementBaseBoneName).rotation)
    ensures !r.1 ==> r.0 == ClearBase(s)
    ensures BaseConsistent(r.0) && r.0.kin == s.kin
  {
    var t := GetMovementBaseTransform(s.movementBase, s.movementBaseBoneName);
    if s.movementBase.Some? && t.ok then
      (s.(movementBasePos := t.location, movementBaseQuat := t.rotation), true)
    else
      (ClearBase(s), false)
  }

  /** Setting the base succeeds when it is null or its transform is
      captured; a failed capture leaves no base at all. */
  function SetMovementBase(s: MotionState, base: Option<Component>, bone: string): (r: (MotionState, bool))
    ensures r.1 <==> base.None? || GetMovementBaseTransform(base, bone).ok
    ensures base.None? ==> r.1 && r.0 == ClearBase(s)
    ensures r.0.movementBase.Some? ==>
              r.0.movementBase == base && r.0.movementBaseBoneName == bone
              && r.0.movementBasePos == GetMovementBaseTransform(base, bone).location
              && r.0.movementBaseQuat == GetMovementBaseTransform(base, bone).rotation
    ensures BaseConsistent(r.0) && r.0.kin == s.kin
  {
    var u := UpdateCurrentMovementBase(s.(movementBase := base, movementBaseBoneName := bone));
    (u.0, base.None? || u.1)
  }

  /** Re-capturing a base that did not move reproduces the state. */
  lemma SetMovementBaseThenUpdateIsStable(s: MotionState, base: Option<Component>, bone: string)
    ensures UpdateCurrentMovementBase(SetMovementBase(s, base, bone).0).0 == SetMovementBase(s, base, bone).0
  {
  }

  const TELEPORT_THRESHOLD: real := 500.0 * 500.0

  function DistSquared(a: Vec3, b: Vec3): (r: real)
    ensures r >= 0.0
    ensures a == b ==> r == 0.0
  {
    (a.x - b.x) * (a.x - b.x) + (a.y - b.y) * (a.y - b.y) + (a.z - b.z) * (a.z - b.z)
  }

  /** World location: base-relative locations go through the base's
      transform (`localToWorld` applies a transform without scale). */
  function WorldLocation(s: MotionState, localToWorld: (Vec3, Quat, Vec3) -> Vec3): (r: Vec3)
    ensures s.movementBase.None? ==> r == s.kin.location
  {
    if s.movementBase.Some? then localToWorld(s.movementBasePos, s.movementBaseQuat, s.kin.location)
    else s.kin.location
  }

  function LerpKinematics(a: Kinematics, b: Kinematics, t: real, lerpRot: (Rotator, Rotator, real) -> Rotator): (r: Kinematics)
    ensures t == 1.0 && lerpRot(a.orientation, b.orientation, 1.0) == b.orientation ==> r == b
    ensures t == 0.0 && lerpRot(a.orientation, b.orientation, 0.0) == a.orientation ==> r == a
  {
    Kinematics(LerpVec(a.location, b.location, t), lerpRot(a.orientation, b.orientation, t),
               LerpVec(a.velocity, b.velocity, t), LerpVec(a.angularVelocity, b.angularVelocity, t),
               LerpVec(a.moveDirectionIntent, b.moveDirectionIntent, t))
  }

  /** The operations interpolation depends on but this model does not
      compute: rotator lerp, quaternion slerp, and re-expressing From's
      kinematics in To's base space or in world space. */
  datatype InterpolationOps = InterpolationOps(
    localToWorld: (Vec3, Quat, Vec3) -> Vec3,
    lerpRot: (Rotator, Rotator, real) -> Rotator,
    slerp: (Quat, Quat, real) -> Quat,
    intoBaseSpace: (MotionState, MotionState) -> Kinematics,
    intoWorldSpace: MotionState -> Kinematics)

  predicate SameBase(a: MotionState, b: MotionState)
  {
    a.movementBase == b.movementBase && a.movementBaseBoneName == b.movementBaseBoneName
  }

  /** From's kinematics expressed in To's space. When the bases differ and
      neither state has one, the engine code reads uninitialised values; the
      model takes them as `unset`. */
  function FromInToSpace(from: MotionState, to: MotionState, ops: InterpolationOps, unset: Kinematics): (r: Kinematics)
    ensures SameBase(from, to) ==> r == from.kin
  {
    if SameBase(from, to) then from.kin
    else if to.movementBase.Some? then ops.intoBaseSpace(from, to)
    else if from.movementBase.Some? then ops.intoWorldSpace(from)
    else unset
  }

  function InterpolateMotion(from: MotionState, to: MotionState, pct: real, ops: InterpolationOps,
                             unset: Kinematics): (r: MotionState)
    // a jump of more than 500 units is a teleport: no blending at all
    ensures DistSquared(WorldLocation(from, ops.localToWorld), WorldLocation(to, ops.localToWorld)) > TELEPORT_THRESHOLD
            ==> r == to
    // the result is always in To's base space
    ensures r.movementBase == to.movementBase && r.movementBaseBoneName == to.movementBaseBoneName
    ensures !(SameBase(from, to) && from.movementBase.Some?) ==>
              r.movementBasePos == to.movementBasePos && r.movementBaseQuat == to.movementBaseQuat
  {
    if DistSquared(WorldLocation(from, ops.localToWorld), WorldLocation(to, ops.localToWorld)) > TELEPORT_THRESHOLD then
      to
    else
      var blendBase := SameBase(from, to) && from.movementBase.Some?;
      MotionState(
        LerpKinematics(FromInToSpace(from, to, ops, unset), to.kin, pct, ops.lerpRot),
        to.movementBase,
        to.movementBaseBoneName,
        if blendBase then LerpVec(from.movementBasePos, to.movementBasePos, pct) else to.movementBasePos,
        if blendBase then ops.slerp(from.movementBaseQuat, to.movementBaseQuat, pct) else to.movementBaseQuat)
  }

  /** Interpolating at Pct 1 lands exactly on To whenever the blending
      primitives do. */
  lemma InterpolateMotionReachesTo(from: MotionState, to: MotionState, ops: InterpolationOps, unset: Kinematics)
    requires forall a, b :: ops.lerpRot(a, b, 1.0) == b
    requires forall a, b :: ops.slerp(a, b, 1.0) == b
    ensures InterpolateMotion(from, to, 1.0, ops, unset) == to
  {
  }

  /** States whose base bookkeeping is consistent never reach the branch
      that reads uninitialised values. */
  lemma ConsistentStatesNeverReadUnset(from: MotionState, to: MotionState, pct: real, ops: InterpolationOps,
                                       u1: Kinematics, u2: Kinematics)
    requires BaseConsistent(from) && BaseConsistent(to)
    ensures InterpolateMotion(from, to, pct, ops, u1) == InterpolateMotion(from, to, pct, ops, u2)
  {
    assert FromInToSpace(from, to, ops, u1) == FromInToSpace(from, to, ops, u2);
  }
}
