/**
 * The physics world's box, sphere and capsule caches: each request scans
 * the cache for a shape with the same dimensions whose material is the
 * requested one (a null request accepts any material), and creates and
 * appends a new shape only when none is found.
 * Dimensions are exact reals, so "nearly equal" is modelled as equality.
 */
module ShapeCache {
  import opened Common
  import Conversions

  type Material = nat

  datatype CachedShape<D> = CachedShape(dims: D, material: Option<Material>)

  /** The loop's acceptance test for one cached shape. */
  predicate Reusable<D(==)>(s: CachedShape<D>, dims: D, material: Option<Material>)
  {
    s.dims == dims && (material.None? || s.material == material)
  }

  /** The first cached shape the request accepts. */
  function FirstReusable<D(==)>(cache: seq<CachedShape<D>>, dims: D, material: Option<Material>): (r: Option<nat>)
    ensures r.Some? ==> (r.value < |cache| && Reusable(cache[r.value], dims, material) &&
      forall k :: 0 <= k < r.value ==> !Reusable(cache[k], dims, material))
    ensures r.None? ==> forall k :: 0 <= k < |cache| ==> !Reusable(cache[k], dims, material)
  {
    if |cache| == 0 then None
    else if Reusable(cache[0], dims, material) then Some(0)
    else match FirstReusable(cache[1..], dims, material)
      case None => None
      case Some(i) => Some(i + 1)
  }

  /** The outcome of a request: the cache afterwards and the index of the returned shape. */
  datatype Lookup<D> = Lookup(cache: seq<CachedShape<D>>, index: nat)

  /**
   * Lookup-or-create: the returned shape has the requested dimensions and
   * an acceptable material, the cache only ever grows at its end, and it
   * grows exactly when no existing shape was acceptable.
   */
  function GetOrCreate<D(==)>(cache: seq<CachedShape<D>>, dims: D, material: Option<Material>): (r: Lookup<D>)
    ensures r.index < |r.cache| && Reusable(r.cache[r.index], dims, material)
    ensures |cache| <= |r.cache| <= |cache| + 1 && r.cache[..|cache|] == cache
    ensures |r.cache| == |cache| + 1 <==> forall k :: 0 <= k < |cache| ==> !Reusable(cache[k], dims, material)
    ensures |r.cache| == |cache| + 1 ==> r.index == |cache| && r.cache[r.index] == CachedShape(dims, material)
    ensures forall k :: 0 <= k < r.index ==> !Reusable(r.cache[k], dims, material)
  {
    match FirstReusable(cache, dims, material)
    case Some(i) => Lookup(cache, i)
    case None => Lookup(cache + [CachedShape(dims, material)], |cache|)
  }

  /** Asking again for the same shape returns it from the cache, which stays unchanged. */
  lemma GetOrCreateIsStable<D>(cache: seq<CachedShape<D>>, dims: D, material: Option<Material>)
    ensures var r := GetOrCreate(cache, dims, material);
      GetOrCreate(r.cache, dims, material) == r
  {
    var r := GetOrCreate(cache, dims, material);
    var r' := GetOrCreate(r.cache, dims, material);
    FirstIsUnique(r.cache, dims, material, r.index);
  }

  /** A request with no material accepts a cached shape whatever its material. */
  lemma NullMaterialReusesAny<D>(cache: seq<CachedShape<D>>, dims: D, k: nat)
    requires k < |cache| && cache[k].dims == dims
    ensures GetOrCreate(cache, dims, None).cache == cache
    ensures GetOrCreate(cache, dims, None).index <= k
  {
    assert Reusable(cache[k], dims, None);
  }

  /** Any index that is acceptable with no acceptable predecessor is the one the scan returns. */
  lemma FirstIsUnique<D>(cache: seq<CachedShape<D>>, dims: D, material: Option<Material>, i: nat)
    requires i < |cache| && Reusable(cache[i], dims, material)
    requires forall k :: 0 <= k < i ==> !Reusable(cache[k], dims, material)
    ensures FirstReusable(cache, dims, material) == Some(i)
  {
    var f := FirstReusable(cache, dims, material);
    assert f.Some?;
  }

  // ---------------------------------------------------------------------
  // The three caches
  // ---------------------------------------------------------------------

  /** A capsule is keyed by (radius, half height of its cylinder). */
  datatype CapsuleDims = CapsuleDims(radius: real, halfHeight: real)

  datatype Caches = Caches(
    boxes: seq<CachedShape<Conversions.Vec3>>,
    spheres: seq<CachedShape<real>>,
    capsules: seq<CachedShape<CapsuleDims>>)

  /** The half extent a box of the given engine dimensions has in the physics library. */
  function BoxHalfExtent(dimensions: Conversions.Vec3): (h: Conversions.Vec3)
    ensures h.x * 200.0 == dimensions.x && h.y * 200.0 == dimensions.z && h.z * 200.0 == dimensions.y
  {
    Conversions.ToJoltVector3(Conversions.Scale(dimensions, 0.5), true)
  }

  /** GetBoxCollisionShape. */
  function GetBoxCollisionShape(c: Caches, dimensions: Conversions.Vec3, material: Option<Material>): (r: (Caches, nat))
    ensures r.0.spheres == c.spheres && r.0.capsules == c.capsules
    ensures r.1 < |r.0.boxes| && r.0.boxes[r.1].dims == BoxHalfExtent(dimensions)
    ensures |c.boxes| <= |r.0.boxes| <= |c.boxes| + 1
  {
    var l := GetOrCreate(c.boxes, BoxHalfExtent(dimensions), material);
    (c.(boxes := l.cache), l.index)
  }

  /** GetSphereCollisionShape: keyed by the radius in metres. */
  function GetSphereCollisionShape(c: Caches, radius: real, material: Option<Material>): (r: (Caches, nat))
    ensures r.0.boxes == c.boxes && r.0.capsules == c.capsules
    ensures r.1 < |r.0.spheres| && r.0.spheres[r.1].dims * 100.0 == radius
    ensures |c.spheres| <= |r.0.spheres| <= |c.spheres| + 1
  {
    var l := GetOrCreate(c.spheres, Conversions.ToJoltFloat(radius), material);
    (c.(spheres := l.cache), l.index)
  }

  /** GetCapsuleCollisionShape: keyed by the radius and half the height, in metres. */
  function GetCapsuleCollisionShape(c: Caches, radius: real, height: real, material: Option<Material>): (r: (Caches, nat))
    ensures r.0.boxes == c.boxes && r.0.spheres == c.spheres
    ensures r.1 < |r.0.capsules|
    ensures r.0.capsules[r.1].dims.radius * 100.0 == radius
    ensures r.0.capsules[r.1].dims.halfHeight * 200.0 == height
    ensures |c.capsules| <= |r.0.capsules| <= |c.capsules| + 1
  {
    var l := GetOrCreate(c.capsules, CapsuleDims(Conversions.ToJoltFloat(radius), Conversions.ToJoltFloat(height) * 0.5), material);
    (c.(capsules := l.cache), l.index)
  }

  /** Requesting the same box twice returns the same cached shape and adds nothing the second time. */
  lemma BoxRequestIsStable(c: Caches, dimensions: Conversions.Vec3, material: Option<Material>)
    ensures var r := GetBoxCollisionShape(c, dimensions, material);
      GetBoxCollisionShape(r.0, dimensions, material) == r
  {
    GetOrCreateIsStable(c.boxes, BoxHalfExtent(dimensions), material);
  }
}
