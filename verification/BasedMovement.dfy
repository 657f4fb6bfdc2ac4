// Based movement: standing on a moving primitive component. A base is a
// component plus an optional bone or socket name; its world transform is
// read through GetMovementBaseTransform, which falls back to the component's
// root transform when the bone is unknown, and to zero/identity when there
// is no component at all. FJoltRelativeBaseInfo records which base a mover
// stands on and where.

module BasedMovement {
  import opened Common
  import opened Conversions
  import opened MoverTypes

  const IDENTITY_QUAT: Quat := Quat(0.0, 0.0, 0.0, 1.0)

  /** A primitive component usable as a base: its root transform and the
      world transforms of the sockets and bones it has. */
  datatype Component = Component(id: nat, location: Vec3, rotation: Quat, sockets: map<string, (Vec3, Quat)>)

  datatype BaseTransform = BaseTransform(ok: bool, location: Vec3, rotation: Quat)

  /** A bone name refers to a socket of the component when it is not None
      and the component has it. */
  predicate HasSocket(c: Component, bone: string)
  {
    bone != NAME_NONE && bone in c.sockets
  }

  function GetMovementBaseTransform(base: Option<Component>, bone: string): (r: BaseTransform)
    // no component: failure, with the zero position and identity rotation
    ensures base.None? ==> r == BaseTransform(false, ZERO_VECTOR, IDENTITY_QUAT)
    // a named socket that exists gives that socket's transform
    ensures base.Some? && HasSocket(base.value, bone) ==>
              r == BaseTransform(true, base.value.sockets[bone].0, base.value.sockets[bone].1)
    // otherwise the component's root transform is reported, even on failure
    ensures base.Some? && !HasSocket(base.value, bone) ==>
              r.location == base.value.location && r.rotation == base.value.rotation
    // success exactly when there is a component and the bone is None or known
    ensures r.ok <==> base.Some? && (bone == NAME_NONE || bone in base.value.sockets)
  {
    match base
    case None => BaseTransform(false, ZERO_VECTOR, IDENTITY_QUAT)
    case Some(c) =>
      if bone != NAME_NONE && bone in c.sockets then
        BaseTransform(true, c.sockets[bone].0, c.sockets[bone].1)
      else
        BaseTransform(bone == NAME_NONE, c.location, c.rotation)
  }

  /** World-to-base location conversion: succeeds exactly when the base
      transform can be read, and then applies `toLocal` to it. */
  function TransformWorldLocationToBased(base: Option<Component>, bone: string, world: Vec3,
                                         toLocal: (Vec3, Quat, Vec3) -> Vec3): (r: Option<Vec3>)
    ensures r.Some? <==> GetMovementBaseTransform(base, bone).ok
  {
    var t := GetMovementBaseTransform(base, bone);
    if t.ok then Some(toLocal(t.location, t.rotation, world)) else None
  }

  datatype RelativeBaseInfo = RelativeBaseInfo(
    movementBase: Option<Component>,
    boneName: string,
    location: Vec3,
    rotation: Quat,
    contactLocalPosition: Vec3)

  const CLEARED_BASE_INFO: RelativeBaseInfo :=
    RelativeBaseInfo(None, NAME_NONE, ZERO_VECTOR, IDENTITY_QUAT, ZERO_VECTOR)

  function Clear(info: RelativeBaseInfo): (r: RelativeBaseInfo)
    ensures !HasRelativeInfo(r)
    ensures r.boneName == NAME_NONE && r.location == ZERO_VECTOR && r.rotation == IDENTITY_QUAT
    ensures r.contactLocalPosition == ZERO_VECTOR
  {
    CLEARED_BASE_INFO
  }

  predicate HasRelativeInfo(info: RelativeBaseInfo)
  {
    info.movementBase.Some?
  }

  function UsesSameBase(info: RelativeBaseInfo, other: Option<Component>, otherBone: string): (r: bool)
    ensures r ==> HasRelativeInfo(info)
    ensures r <==> info.movementBase.Some? && info.movementBase == other && info.boneName == otherBone
  {
    HasRelativeInfo(info) && info.movementBase == other && info.boneName == otherBone
  }

  /** UsesSameBase against another info compares with its base and bone. */
  function UsesSameBaseAs(info: RelativeBaseInfo, other: RelativeBaseInfo): (r: bool)
    ensures r ==> HasRelativeInfo(info) && HasRelativeInfo(other)
    ensures r <==> UsesSameBase(other, info.movementBase, info.boneName)
  {
    UsesSameBase(info, other.movementBase, other.boneName)
  }

  /** What a floor query reports about the surface below the mover. */
  datatype FloorResult = FloorResult(walkable: bool, component: Option<Component>, boneName: string, impactPoint: Vec3)

  function SetFromFloorResult(info: RelativeBaseInfo, floor: FloorResult,
                              toLocal: (Vec3, Quat, Vec3) -> Vec3): (r: RelativeBaseInfo)
    // any failure clears the whole info
    ensures !HasRelativeInfo(r) ==> r == CLEARED_BASE_INFO
    ensures HasRelativeInfo(r) <==>
              floor.walkable && GetMovementBaseTransform(floor.component, floor.boneName).ok
    ensures HasRelativeInfo(r) ==>
              UsesSameBase(r, floor.component, floor.boneName)
              && r.location == GetMovementBaseTransform(floor.component, floor.boneName).location
              && r.rotation == GetMovementBaseTransform(floor.component, floor.boneName).rotation
              && Some(r.contactLocalPosition)
                 == TransformWorldLocationToBased(floor.component, floor.boneName, floor.impactPoint, toLocal)
  {
    if floor.walkable && floor.component.Some? then
      var t := GetMovementBaseTransform(floor.component, floor.boneName);
      var contact := TransformWorldLocationToBased(floor.component, floor.boneName, floor.impactPoint, toLocal);
      if t.ok && contact.Some? then
        RelativeBaseInfo(floor.component, floor.boneName, t.location, t.rotation, contact.value)
      else
        Clear(info)
    else
      Clear(info)
  }

  function SetFromComponent(info: RelativeBaseInfo, comp: Option<Component>, bone: string): (r: RelativeBaseInfo)
    ensures !HasRelativeInfo(r) ==> r == CLEARED_BASE_INFO
    ensures HasRelativeInfo(r) <==> GetMovementBaseTransform(comp, bone).ok
    // on success the contact point is left as it was
    ensures HasRelativeInfo(r) ==>
              r.location == GetMovementBaseTransform(comp, bone).location
              && r.rotation == GetMovementBaseTransform(comp, bone).rotation
              && r.contactLocalPosition == info.contactLocalPosition
  {
    var t := GetMovementBaseTransform(comp, bone);
    if comp.Some? && t.ok then
      RelativeBaseInfo(comp, bone, t.location, t.rotation, info.contactLocalPosition)
    else
      Clear(info)
  }

  /** Setting the info from a component makes it use that component and
      bone exactly when the transform could be read; a cleared info uses
      no base at all. */
  lemma SetFromComponentUsesIt(info: RelativeBaseInfo, comp: Option<Component>, bone: string, other: Option<Component>, otherBone: string)
    ensures UsesSameBase(SetFromComponent(info, comp, bone), comp, bone) <==> GetMovementBaseTransform(comp, bone).ok
    ensures !UsesSameBase(Clear(info), other, otherBone)
  {
  }

  /** An unknown bone on a real component fails but still reports the
      component's root transform, so callers that ignore the result see a
      usable transform. */
  lemma UnknownBoneFallsBackToRoot(c: Component, bone: string)
    requires bone != NAME_NONE && bone !in c.sockets
    ensures !GetMovementBaseTransform(Some(c), bone).ok
    ensures GetMovementBaseTransform(Some(c), bone).location == c.location
    ensures GetMovementBaseTransform(Some(c), bone).rotation == c.rotation
  {
  }
}
