/**
 * The frame-indexed circular buffer the prediction services store per-frame
 * data in: a fixed number of slots, frame f living in slot f mod capacity.
 * Its own source file is not part of this model; only the indexing the
 * services rely on is stated here.
 */
module FrameBuffer {
  import opened Common

  datatype Buffer<T> = Buffer(slots: seq<T>)

  predicate Valid<T>(b: Buffer<T>)
  {
    |b.slots| > 0
  }

  function Capacity<T>(b: Buffer<T>): nat
  {
    |b.slots|
  }

  /** A buffer of the given capacity with every slot holding the default. */
  function Make<T>(capacity: nat, default: T): (b: Buffer<T>)
    requires capacity > 0
    ensures Valid(b) && Capacity(b) == capacity
    ensures forall k :: 0 <= k < capacity ==> b.slots[k] == default
  {
    Buffer(seq(capacity, _ => default))
  }

  function Slot<T>(b: Buffer<T>, frame: nat): (i: nat)
    requires Valid(b)
    ensures i < Capacity(b)
  {
    frame % |b.slots|
  }

  function At<T>(b: Buffer<T>, frame: nat): T
    requires Valid(b)
  {
    b.slots[Slot(b, frame)]
  }

  function Put<T>(b: Buffer<T>, frame: nat, v: T): (r: Buffer<T>)
    requires Valid(b)
    ensures Valid(r) && Capacity(r) == Capacity(b)
    ensures At(r, frame) == v
    ensures forall g: nat {:trigger At(r, g)} :: Slot(b, g) != Slot(b, frame) ==> At(r, g) == At(b, g)
  {
    Buffer(b.slots[Slot(b, frame) := v])
  }

  /** Frames a whole capacity apart share a slot. */
  lemma SameSlotAcrossCapacity<T>(b: Buffer<T>, frame: nat)
    requires Valid(b)
    ensures Slot(b, frame + Capacity(b)) == Slot(b, frame)
  {
    var c := Capacity(b);
    DivUnique(frame, c, frame / c, frame % c);
    DivUnique(frame + c, c, frame / c + 1, frame % c);
  }

  /** Frames closer than the capacity never share a slot. */
  lemma NearbyFramesDistinctSlots<T>(b: Buffer<T>, f: nat, g: nat)
    requires Valid(b) && f < g < f + Capacity(b)
    ensures Slot(b, f) != Slot(b, g)
  {
    var c := Capacity(b);
    var qf, qg := f / c, g / c;
    if f % c == g % c {
      assert g - f == c * (qg - qf);
      if qg - qf <= 0 {
        MulMono(c, qg - qf, 0);
      } else {
        MulMono(c, 1, qg - qf);
      }
      assert false;
    }
  }
}
