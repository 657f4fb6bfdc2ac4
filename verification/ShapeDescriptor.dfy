/**
 * FUnrealShapeDescriptor: the list of collision primitives an actor
 * registered with the physics world, each with its body id, a root flag and
 * its own response table, and the lookups the subsystem runs over it.
 * A primitive is an opaque component id; a shape whose weak pointer no
 * longer resolves holds None.
 */
module ShapeDescriptor {
  import opened Common
  import CollisionMasks

  type Component = nat

  datatype UnrealShape = UnrealShape(
    isRoot: bool,
    id: nat,
    shape: Option<Component>,
    responses: CollisionMasks.ResponseTable)

  datatype Descriptor = Descriptor(
    shapes: seq<UnrealShape>,
    responses: CollisionMasks.ResponseTable)

  /** The uint32 id converted to the int the lookups return. */
  function IdAsInt(id: nat): int
  {
    if id < 0x8000_0000 then id else id - 0x1_0000_0000
  }

  /**
   * Add: appends one shape for the component, with the given root flag,
   * id 0 and a default response table.
   */
  function Add(d: Descriptor, c: Option<Component>, isRoot: bool, defaults: CollisionMasks.ResponseTable): (r: Descriptor)
    ensures |r.shapes| == |d.shapes| + 1 && r.shapes[..|d.shapes|] == d.shapes
    ensures r.shapes[|d.shapes|] == UnrealShape(isRoot, 0, c, defaults)
    ensures r.responses == d.responses
  {
    d.(shapes := d.shapes + [UnrealShape(isRoot, 0, c, defaults)])
  }

  /** Index of the first root shape, if any. */
  function FirstRoot(shapes: seq<UnrealShape>): (r: Option<nat>)
    ensures r.Some? ==> (r.value < |shapes| && shapes[r.value].isRoot &&
      forall k :: 0 <= k < r.value ==> !shapes[k].isRoot)
    ensures r.None? ==> forall k :: 0 <= k < |shapes| ==> !shapes[k].isRoot
  {
    if |shapes| == 0 then None
    else if shapes[0].isRoot then Some(0)
    else match FirstRoot(shapes[1..])
      case None => None
      case Some(i) => Some(i + 1)
  }

  /** GetRootComponent: the component of the first root shape, else null. */
  function GetRootComponent(d: Descriptor): (r: Option<Component>)
    ensures FirstRoot(d.shapes).None? ==> r.None?
    ensures FirstRoot(d.shapes).Some? ==> r == d.shapes[FirstRoot(d.shapes).value].shape
  {
    match FirstRoot(d.shapes)
    case None => None
    case Some(i) => d.shapes[i].shape
  }

  /** GetRootColliderId: the id of the first root shape, else 0. */
  function GetRootColliderId(d: Descriptor): (r: nat)
    ensures FirstRoot(d.shapes).None? ==> r == 0
    ensures FirstRoot(d.shapes).Some? ==> r == d.shapes[FirstRoot(d.shapes).value].id
  {
    match FirstRoot(d.shapes)
    case None => 0
    case Some(i) => d.shapes[i].id
  }

  /**
   * Index of the first shape whose component equals the target. With
   * skipNull, shapes without a component are passed over.
   */
  function FirstMatch(shapes: seq<UnrealShape>, target: Option<Component>, skipNull: bool): (r: Option<nat>)
    ensures r.Some? ==> (r.value < |shapes| && shapes[r.value].shape == target &&
      (skipNull ==> shapes[r.value].shape.Some?) &&
      forall k :: 0 <= k < r.value ==> !(shapes[k].shape == target && (skipNull ==> shapes[k].shape.Some?)))
    ensures r.None? ==> forall k :: 0 <= k < |shapes| ==>
      !(shapes[k].shape == target && (skipNull ==> shapes[k].shape.Some?))
  {
    if |shapes| == 0 then None
    else if shapes[0].shape == target && (skipNull ==> shapes[0].shape.Some?) then Some(0)
    else match FirstMatch(shapes[1..], target, skipNull)
      case None => None
      case Some(i) => Some(i + 1)
  }

  /**
   * GetColliderId: the id of the first shape whose component is the
   * target, else INDEX_NONE. No null check: a null target matches a
   * shape whose component is gone.
   */
  function GetColliderId(d: Descriptor, target: Option<Component>): (r: int)
    ensures FirstMatch(d.shapes, target, false).None? ==> r == INDEX_NONE
    ensures FirstMatch(d.shapes, target, false).Some? ==>
      r == IdAsInt(d.shapes[FirstMatch(d.shapes, target, false).value].id)
  {
    match FirstMatch(d.shapes, target, false)
    case None => INDEX_NONE
    case Some(i) => IdAsInt(d.shapes[i].id)
  }

  /** Find: like GetColliderId but skipping shapes whose component is gone. */
  function Find(d: Descriptor, target: Option<Component>): (r: int)
    ensures FirstMatch(d.shapes, target, true).None? ==> r == INDEX_NONE
    ensures FirstMatch(d.shapes, target, true).Some? ==>
      r == IdAsInt(d.shapes[FirstMatch(d.shapes, target, true).value].id)
  {
    match FirstMatch(d.shapes, target, true)
    case None => INDEX_NONE
    case Some(i) => IdAsInt(d.shapes[i].id)
  }

  /** A null target is never found. */
  lemma FindNullMisses(d: Descriptor)
    ensures Find(d, None) == INDEX_NONE
  {
  }

  /** For a live target the two lookups agree. */
  lemma FindAgreesWithGetColliderId(d: Descriptor, c: Component)
    ensures Find(d, Some(c)) == GetColliderId(d, Some(c))
  {
    FirstMatchLiveTarget(d.shapes, c);
  }

  lemma {:induction false} FirstMatchLiveTarget(shapes: seq<UnrealShape>, c: Component)
    ensures FirstMatch(shapes, Some(c), true) == FirstMatch(shapes, Some(c), false)
  {
    if |shapes| > 0 {
      FirstMatchLiveTarget(shapes[1..], c);
    }
  }

  /**
   * GetCollisionResponseContainer: the matching live shape's responses,
   * else the descriptor's own table.
   */
  function GetCollisionResponseContainer(d: Descriptor, target: Option<Component>): (r: CollisionMasks.ResponseTable)
    ensures FirstMatch(d.shapes, target, true).None? ==> r == d.responses
    ensures FirstMatch(d.shapes, target, true).Some? ==>
      r == d.shapes[FirstMatch(d.shapes, target, true).value].responses
  {
    match FirstMatch(d.shapes, target, true)
    case None => d.responses
    case Some(i) => d.shapes[i].responses
  }

  /** After Add of a live component nobody else holds, Find returns id 0. */
  lemma AddThenFind(d: Descriptor, c: Component, isRoot: bool, defaults: CollisionMasks.ResponseTable)
    requires forall k :: 0 <= k < |d.shapes| ==> d.shapes[k].shape != Some(c)
    ensures Find(Add(d, Some(c), isRoot, defaults), Some(c)) == 0
  {
    var d' := Add(d, Some(c), isRoot, defaults);
    assert d'.shapes[|d.shapes|].shape == Some(c);
    var m := FirstMatch(d'.shapes, Some(c), true);
    assert m.Some?;
    assert m.value == |d.shapes|;
  }

  // ---------------------------------------------------------------------
  // FindClosestPrimitive
  // ---------------------------------------------------------------------

  /** TNumericLimits<float>::Max(). */
  const FLOAT_MAX: real := 340282346638528859811704183484516925440.0

  /**
   * The scan over shapes: keep the first live shape whose distance is
   * strictly below the best so far. `dist` gives each component's distance
   * to the query location.
   */
  function ClosestFrom(shapes: seq<UnrealShape>, dist: Component -> real, best: real, nearest: Option<Component>): (r: (real, Option<Component>))
    ensures r.0 <= best
    ensures r.1 == nearest || exists k :: 0 <= k < |shapes| && r.1 == shapes[k].shape && r.1.Some?
    ensures r.1 != nearest ==> r.0 < best
    ensures forall k :: 0 <= k < |shapes| && shapes[k].shape.Some? ==> r.0 <= dist(shapes[k].shape.value)
    ensures nearest.Some? ==> r.1.Some?
    ensures r.1.None? ==> forall k :: 0 <= k < |shapes| && shapes[k].shape.Some? ==> dist(shapes[k].shape.value) >= best
  {
    if |shapes| == 0 then (best, nearest)
    else
      var s := shapes[0];
      if s.shape.None? then ClosestFrom(shapes[1..], dist, best, nearest)
      else
        var d := dist(s.shape.value);
        if d < best then ClosestFrom(shapes[1..], dist, d, s.shape)
        else ClosestFrom(shapes[1..], dist, best, nearest)
  }

  /**
   * FindClosestPrimitive: with exactly one shape, that shape's component
   * without a distance test; otherwise the nearest live component.
   */
  function FindClosestPrimitive(d: Descriptor, dist: Component -> real): (r: Option<Component>)
    ensures |d.shapes| == 1 ==> r == d.shapes[0].shape
    ensures |d.shapes| != 1 && r.Some? ==>
      (exists k :: 0 <= k < |d.shapes| && d.shapes[k].shape == r) &&
      dist(r.value) < FLOAT_MAX
  {
    if |d.shapes| == 1 then d.shapes[0].shape
    else
      var res := ClosestFrom(d.shapes, dist, FLOAT_MAX, None);
      ClosestIsScanned(d.shapes, dist, FLOAT_MAX);
      res.1
  }

  lemma {:induction false} ClosestIsScanned(shapes: seq<UnrealShape>, dist: Component -> real, best: real)
    ensures var r := ClosestFrom(shapes, dist, best, None);
      r.1.Some? ==> dist(r.1.value) == r.0 && r.0 < best
  {
    if |shapes| > 0 {
      var s := shapes[0];
      if s.shape.None? || dist(s.shape.value) >= best {
        ClosestIsScanned(shapes[1..], dist, best);
      } else {
        ClosestKeepsNearest(shapes[1..], dist, dist(s.shape.value), s.shape);
      }
    }
  }

  /** Once a candidate is held, the result's distance is its recorded best. */
  lemma {:induction false} ClosestKeepsNearest(shapes: seq<UnrealShape>, dist: Component -> real, best: real, nearest: Option<Component>)
    requires nearest.Some? && dist(nearest.value) == best
    ensures var r := ClosestFrom(shapes, dist, best, nearest);
      r.1.Some? && dist(r.1.value) == r.0
  {
    if |shapes| > 0 {
      var s := shapes[0];
      if s.shape.None? || dist(s.shape.value) >= best {
        ClosestKeepsNearest(shapes[1..], dist, best, nearest);
      } else {
        ClosestKeepsNearest(shapes[1..], dist, dist(s.shape.value), s.shape);
      }
    }
  }

  /** The chosen component is at least as close as every live shape. */
  lemma ClosestIsNearest(d: Descriptor, dist: Component -> real, k: nat)
    requires |d.shapes| != 1 && k < |d.shapes| && d.shapes[k].shape.Some?
    requires dist(d.shapes[k].shape.value) < FLOAT_MAX
    ensures FindClosestPrimitive(d, dist).Some?
    ensures dist(FindClosestPrimitive(d, dist).value) <= dist(d.shapes[k].shape.value)
  {
    ClosestIsScanned(d.shapes, dist, FLOAT_MAX);
    var r := ClosestFrom(d.shapes, dist, FLOAT_MAX, None);
    assert r.0 <= dist(d.shapes[k].shape.value);
    assert r.0 < FLOAT_MAX;
  }
}
