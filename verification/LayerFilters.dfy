/**
 * The physics world's layer filters: which object layers collide, how
 * object layers map onto broadphase layers, the object-versus-broadphase
 * filter, and the allow list that picks which bodies a snapshot saves.
 */
module LayerFilters {

  const NON_MOVING: nat := 0
  const MOVING: nat := 1
  const NUM_LAYERS: nat := 2

  const BP_NON_MOVING: nat := 0
  const BP_MOVING: nat := 1
  const NUM_BROADPHASE_LAYERS: nat := 2

  /**
   * ObjectLayerPairFilterImpl::ShouldCollide. A first layer outside the
   * two known ones trips a debug assertion and yields false.
   */
  function ObjectLayersCollide(layer1: nat, layer2: nat): (r: bool)
    ensures layer1 == NON_MOVING ==> (r <==> layer2 == MOVING)
    ensures layer1 == MOVING ==> r
    ensures layer1 >= NUM_LAYERS ==> !r
  {
    if layer1 == NON_MOVING then layer2 == MOVING
    else if layer1 == MOVING then true
    else false
  }

  /** Static bodies never collide with static bodies; anything with a moving body does. */
  lemma ObjectLayersCollideTable(a: nat, b: nat)
    requires a < NUM_LAYERS && b < NUM_LAYERS
    ensures ObjectLayersCollide(a, b) <==> a == MOVING || b == MOVING
  {
  }

  lemma ObjectLayersCollideSymmetric(a: nat, b: nat)
    requires a < NUM_LAYERS && b < NUM_LAYERS
    ensures ObjectLayersCollide(a, b) == ObjectLayersCollide(b, a)
  {
  }

  /** FBroadPhaseLayerInterfaceImpl::GetNumBroadPhaseLayers. */
  function GetNumBroadPhaseLayers(): (r: nat)
    ensures r == NUM_LAYERS
  {
    NUM_BROADPHASE_LAYERS
  }

  /** The mapping table filled in the constructor. */
  const OBJECT_TO_BROADPHASE: seq<nat> := [BP_NON_MOVING, BP_MOVING]

  /** GetBroadPhaseLayer: the layer must be in range (a checked assertion). */
  function GetBroadPhaseLayer(layer: nat): (r: nat)
    requires layer < NUM_LAYERS
    ensures r < GetNumBroadPhaseLayers()
    ensures layer == NON_MOVING ==> r == BP_NON_MOVING
    ensures layer == MOVING ==> r == BP_MOVING
  {
    OBJECT_TO_BROADPHASE[layer]
  }

  /** ObjectVsBroadPhaseLayerFilterImpl::ShouldCollide. */
  function ObjectVsBroadPhaseCollide(layer: nat, bp: nat): (r: bool)
    ensures layer == NON_MOVING ==> (r <==> bp == BP_MOVING)
    ensures layer == MOVING ==> r
    ensures layer >= NUM_LAYERS ==> !r
  {
    if layer == NON_MOVING then bp == BP_MOVING
    else if layer == MOVING then true
    else false
  }

  /** The broadphase test agrees with the object-pair test under the layer mapping. */
  lemma BroadPhaseAgreesWithPairFilter(layer1: nat, layer2: nat)
    requires layer1 < NUM_LAYERS && layer2 < NUM_LAYERS
    ensures ObjectVsBroadPhaseCollide(layer1, GetBroadPhaseLayer(layer2)) == ObjectLayersCollide(layer1, layer2)
  {
  }

  /** SaveStateFilter: the list of body ids a snapshot records. */
  datatype SaveStateFilter = SaveStateFilter(allowed: seq<nat>)

  /** ShouldSaveBody: a linear scan of the allow list. */
  method ShouldSaveBody(f: SaveStateFilter, body: nat) returns (r: bool)
    ensures r <==> body in f.allowed
  {
    var i := 0;
    while i < |f.allowed|
      invariant 0 <= i <= |f.allowed|
      invariant forall k :: 0 <= k < i ==> f.allowed[k] != body
    {
      if f.allowed[i] == body {
        return true;
      }
      i := i + 1;
    }
    return false;
  }

  /** AddToBodyIDAllowList: inserts at the front. */
  function AddToBodyIDAllowList(f: SaveStateFilter, body: nat): (r: SaveStateFilter)
    ensures |r.allowed| == |f.allowed| + 1 && r.allowed[0] == body && r.allowed[1..] == f.allowed
  {
    SaveStateFilter([body] + f.allowed)
  }

  /** After adding, a body is saved iff it was just added or was already allowed. */
  lemma AllowListAdd(f: SaveStateFilter, body: nat, other: nat)
    ensures other in AddToBodyIDAllowList(f, body).allowed <==> other == body || other in f.allowed
  {
  }
}
