/**
 * Conversions between the engine's frame (Z up, centimetres) and the
 * physics library's frame (Y up, metres): Y and Z swap, lengths scale by
 * 1/100, and rotations conjugate their vector part under the swap.
 * Values are exact reals: float rounding is not modelled.
 */
module Conversions {

  const JOLT_TO_WORLD_SCALE: real := 100.0
  const WORLD_TO_JOLT_SCALE: real := 0.01

  datatype Vec3 = Vec3(x: real, y: real, z: real)
  datatype Quat = Quat(x: real, y: real, z: real, w: real)

  function Scale(v: Vec3, k: real): Vec3
  {
    Vec3(v.x * k, v.y * k, v.z * k)
  }

  function ToUnrealFloat(sz: real): (r: real)
    ensures r == sz * 100.0
  {
    sz * JOLT_TO_WORLD_SCALE
  }

  function ToJoltFloat(sz: real): (r: real)
    ensures r * 100.0 == sz
  {
    sz * WORLD_TO_JOLT_SCALE
  }

  /** ToJoltVector3: (X, Z, Y), scaled to metres when asked. */
  function ToJoltVector3(v: Vec3, adjustScale: bool): (r: Vec3)
    ensures !adjustScale ==> r.x == v.x && r.y == v.z && r.z == v.y
    ensures adjustScale ==> r.x * 100.0 == v.x && r.y * 100.0 == v.z && r.z * 100.0 == v.y
  {
    if adjustScale then Scale(Vec3(v.x, v.z, v.y), WORLD_TO_JOLT_SCALE)
    else Vec3(v.x, v.z, v.y)
  }

  /** ToUnrealVector3: (X, Z, Y), scaled to centimetres when asked. */
  function ToUnrealVector3(v: Vec3, adjustScale: bool): (r: Vec3)
    ensures !adjustScale ==> r.x == v.x && r.y == v.z && r.z == v.y
    ensures adjustScale ==> r.x == v.x * 100.0 && r.y == v.z * 100.0 && r.z == v.y * 100.0
  {
    if adjustScale then Scale(Vec3(v.x, v.z, v.y), JOLT_TO_WORLD_SCALE)
    else Vec3(v.x, v.z, v.y)
  }

  /** ToJoltFloat3: a float vector, always scaled. */
  function ToJoltFloat3(v: Vec3): (r: Vec3)
    ensures r == ToJoltVector3(v, true)
  {
    Vec3(v.x * WORLD_TO_JOLT_SCALE, v.z * WORLD_TO_JOLT_SCALE, v.y * WORLD_TO_JOLT_SCALE)
  }

  /** ToJoltPosition: relative to the world origin, swapped, in metres. */
  function ToJoltPosition(v: Vec3, origin: Vec3): (r: Vec3)
    ensures r.x * 100.0 == v.x - origin.x
    ensures r.y * 100.0 == v.z - origin.z
    ensures r.z * 100.0 == v.y - origin.y
  {
    Scale(Vec3(v.x - origin.x, v.z - origin.z, v.y - origin.y), WORLD_TO_JOLT_SCALE)
  }

  /** ToUnrealPosition: swapped, in centimetres, offset by the world origin. */
  function ToUnrealPosition(v: Vec3, origin: Vec3): (r: Vec3)
    ensures r.x == v.x * 100.0 + origin.x
    ensures r.y == v.z * 100.0 + origin.y
    ensures r.z == v.y * 100.0 + origin.z
  {
    var s := Scale(Vec3(v.x, v.z, v.y), JOLT_TO_WORLD_SCALE);
    Vec3(s.x + origin.x, s.y + origin.y, s.z + origin.z)
  }

  /** ToUnrealRotation: (-x, -z, -y, w). */
  function ToUnrealRotation(q: Quat): (r: Quat)
    ensures r.w == q.w && r.x == -q.x && r.y == -q.z && r.z == -q.y
  {
    Quat(-q.x, -q.z, -q.y, q.w)
  }

  /** ToJoltRotation: (-X, -Z, -Y, W). */
  function ToJoltRotation(q: Quat): (r: Quat)
    ensures r.w == q.w && r.x == -q.x && r.y == -q.z && r.z == -q.y
  {
    Quat(-q.x, -q.z, -q.y, q.w)
  }

  lemma RotationRoundTrips(q: Quat)
    ensures ToUnrealRotation(ToJoltRotation(q)) == q
    ensures ToJoltRotation(ToUnrealRotation(q)) == q
  {
  }

  lemma VectorRoundTrips(v: Vec3, adjustScale: bool)
    ensures ToUnrealVector3(ToJoltVector3(v, adjustScale), adjustScale) == v
    ensures ToJoltVector3(ToUnrealVector3(v, adjustScale), adjustScale) == v
  {
  }

  lemma PositionRoundTrips(v: Vec3, origin: Vec3)
    ensures ToUnrealPosition(ToJoltPosition(v, origin), origin) == v
    ensures ToJoltPosition(ToUnrealPosition(v, origin), origin) == v
  {
  }
}
