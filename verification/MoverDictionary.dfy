// FJoltMoverDictionaryData: a blueprint-friendly data struct holding six
// name-keyed maps (bools, ints, floats, vectors, rotators, names). It is
// sent with a six-bit presence mask, interpolated with the closer sample
// deciding which keys exist, merged by keeping existing keys, and never
// triggers reconciliation.

module MoverDictionary {
  import opened Common
  import opened Conversions
  import opened MoverTypes
  import opened DataModelTypes

  const NUM_VALUE_MAPS: nat := 6

  datatype Dictionary = Dictionary(
    bools: map<string, bool>,
    ints: map<string, int>,
    floats: map<string, real>,
    vectors: map<string, Vec3>,
    rotators: map<string, Rotator>,
    names: map<string, string>)

  const EMPTY_DICTIONARY: Dictionary := Dictionary(map[], map[], map[], map[], map[], map[])

  predicate Bit(b: bv8, i: nat)
    requires i < 8
  {
    b & (1 << i) != 0
  }

  function EmptyFlag(d: Dictionary, i: nat): (r: bv8)
    ensures r == 0 || r == 1
  {
    if NonEmpty(d, i) then 0 else 1
  }

  /** The presence mask: the complement of the "is empty" flags,
      of which only the low six bits are sent. */
  function PresenceBits(d: Dictionary): (b: bv8)
    ensures Bit(b, 0) <==> d.bools != map[]
    ensures Bit(b, 1) <==> d.ints != map[]
    ensures Bit(b, 2) <==> d.floats != map[]
    ensures Bit(b, 3) <==> d.vectors != map[]
    ensures Bit(b, 4) <==> d.rotators != map[]
    ensures Bit(b, 5) <==> d.names != map[]
    ensures b < 64
  {
    var empties := EmptyFlag(d, 0) | (EmptyFlag(d, 1) << 1) | (EmptyFlag(d, 2) << 2)
                   | (EmptyFlag(d, 3) << 3) | (EmptyFlag(d, 4) << 4) | (EmptyFlag(d, 5) << 5);
    (!empties) & 0x3F
  }

  /** One serialized value map. */
  datatype Payload =
    | BoolMap(bools: map<string, bool>)
    | IntMap(ints: map<string, int>)
    | FloatMap(floats: map<string, real>)
    | VectorMap(vectors: map<string, Vec3>)
    | RotatorMap(rotators: map<string, Rotator>)
    | NameMap(names: map<string, string>)

  predicate PayloadNonEmpty(p: Payload)
  {
    match p
    case BoolMap(m) => m != map[]
    case IntMap(m) => m != map[]
    case FloatMap(m) => m != map[]
    case VectorMap(m) => m != map[]
    case RotatorMap(m) => m != map[]
    case NameMap(m) => m != map[]
  }

  /** Whether value map `i` (in declaration order) holds anything. */
  predicate NonEmpty(d: Dictionary, i: nat)
  {
    i < NUM_VALUE_MAPS && PayloadNonEmpty(PayloadOf(d, i))
  }

  function KindOf(p: Payload): (i: nat)
    ensures i < NUM_VALUE_MAPS
  {
    match p
    case BoolMap(_) => 0
    case IntMap(_) => 1
    case FloatMap(_) => 2
    case VectorMap(_) => 3
    case RotatorMap(_) => 4
    case NameMap(_) => 5
  }

  function PayloadOf(d: Dictionary, i: nat): (p: Payload)
    requires i < NUM_VALUE_MAPS
    ensures KindOf(p) == i
  {
    match i
    case 0 => BoolMap(d.bools)
    case 1 => IntMap(d.ints)
    case 2 => FloatMap(d.floats)
    case 3 => VectorMap(d.vectors)
    case 4 => RotatorMap(d.rotators)
    case _ => NameMap(d.names)
  }

  /** Stores a received map in its field. */
  function Put(d: Dictionary, p: Payload): (r: Dictionary)
    ensures PayloadOf(r, KindOf(p)) == p
    ensures forall k :: 0 <= k < NUM_VALUE_MAPS && k != KindOf(p) ==> PayloadOf(r, k) == PayloadOf(d, k)
  {
    match p
    case BoolMap(m) => d.(bools := m)
    case IntMap(m) => d.(ints := m)
    case FloatMap(m) => d.(floats := m)
    case VectorMap(m) => d.(vectors := m)
    case RotatorMap(m) => d.(rotators := m)
    case NameMap(m) => d.(names := m)
  }

  /** Empties the field of a map that was not sent. */
  function EmptyMap(d: Dictionary, i: nat): (r: Dictionary)
    requires i < NUM_VALUE_MAPS
    ensures !NonEmpty(r, i)
    ensures forall k :: 0 <= k < NUM_VALUE_MAPS && k != i ==> PayloadOf(r, k) == PayloadOf(d, k)
  {
    match i
    case 0 => d.(bools := map[])
    case 1 => d.(ints := map[])
    case 2 => d.(floats := map[])
    case 3 => d.(vectors := map[])
    case 4 => d.(rotators := map[])
    case _ => d.(names := map[])
  }

  /** The maps sent from position `i` on, in order. */
  function SavePayloadFrom(d: Dictionary, i: nat): (w: seq<Payload>)
    requires i <= NUM_VALUE_MAPS
    ensures forall k :: 0 <= k < |w| ==> NonEmpty(d, KindOf(w[k])) && i <= KindOf(w[k])
    decreases NUM_VALUE_MAPS - i
  {
    if i == NUM_VALUE_MAPS then []
    else (if NonEmpty(d, i) then [PayloadOf(d, i)] else []) + SavePayloadFrom(d, i + 1)
  }

  datatype DictionaryWire = DictionaryWire(bits: bv8, payload: seq<Payload>)

  /** Only the non-empty maps are written. */
  function SaveDictionary(d: Dictionary): (w: DictionaryWire)
    ensures forall k :: 0 <= k < |w.payload| ==> NonEmpty(d, KindOf(w.payload[k]))
  {
    DictionaryWire(PresenceBits(d), SavePayloadFrom(d, 0))
  }

  function LoadFrom(bits: bv8, p: seq<Payload>, i: nat, acc: Dictionary): (r: Option<Dictionary>)
    requires i <= NUM_VALUE_MAPS
    // a map whose presence bit is clear arrives empty
    ensures r.Some? ==> forall k :: i <= k < NUM_VALUE_MAPS && !Bit(bits, k) ==> !NonEmpty(r.value, k)
    ensures r.Some? ==> forall k :: 0 <= k < i ==> PayloadOf(r.value, k) == PayloadOf(acc, k)
    decreases NUM_VALUE_MAPS - i
  {
    if i == NUM_VALUE_MAPS then
      if p == [] then Some(acc) else None
    else if Bit(bits, i) then
      if p != [] && KindOf(p[0]) == i then LoadFrom(bits, p[1..], i + 1, Put(acc, p[0])) else None
    else
      LoadFrom(bits, p, i + 1, EmptyMap(acc, i))
  }

  function LoadDictionary(w: DictionaryWire): (r: Option<Dictionary>)
    ensures r.Some? ==> forall k :: 0 <= k < NUM_VALUE_MAPS && !Bit(w.bits, k) ==> !NonEmpty(r.value, k)
  {
    LoadFrom(w.bits, w.payload, 0, EMPTY_DICTIONARY)
  }

  /** The six fields agree with `d` below position `i`. */
  predicate AgreeBelow(acc: Dictionary, d: Dictionary, i: nat)
  {
    forall k :: 0 <= k < i && k < NUM_VALUE_MAPS ==> PayloadOf(acc, k) == PayloadOf(d, k)
  }

  lemma AgreeAllIsEqual(acc: Dictionary, d: Dictionary)
    requires AgreeBelow(acc, d, NUM_VALUE_MAPS)
    ensures acc == d
  {
    assert PayloadOf(acc, 0) == PayloadOf(d, 0);
    assert PayloadOf(acc, 1) == PayloadOf(d, 1);
    assert PayloadOf(acc, 2) == PayloadOf(d, 2);
    assert PayloadOf(acc, 3) == PayloadOf(d, 3);
    assert PayloadOf(acc, 4) == PayloadOf(d, 4);
    assert PayloadOf(acc, 5) == PayloadOf(d, 5);
  }

  lemma PresenceBitIff(d: Dictionary, i: nat)
    requires i < NUM_VALUE_MAPS
    ensures Bit(PresenceBits(d), i) <==> NonEmpty(d, i)
  {
  }

  /** Putting map `i` (or emptying it when `d` has none) extends the
      agreement by one position. */
  lemma StepAgrees(acc: Dictionary, d: Dictionary, i: nat)
    requires i < NUM_VALUE_MAPS && AgreeBelow(acc, d, i)
    ensures NonEmpty(d, i) ==> AgreeBelow(Put(acc, PayloadOf(d, i)), d, i + 1)
    ensures !NonEmpty(d, i) ==> AgreeBelow(EmptyMap(acc, i), d, i + 1)
  {
  }

  lemma {:induction false} LoadFromSaved(d: Dictionary, i: nat, acc: Dictionary)
    requires i <= NUM_VALUE_MAPS && AgreeBelow(acc, d, i)
    ensures LoadFrom(PresenceBits(d), SavePayloadFrom(d, i), i, acc) == Some(d)
    decreases NUM_VALUE_MAPS - i
  {
    if i == NUM_VALUE_MAPS {
      AgreeAllIsEqual(acc, d);
    } else {
      var bits := PresenceBits(d);
      var w := SavePayloadFrom(d, i);
      PresenceBitIff(d, i);
      StepAgrees(acc, d, i);
      if NonEmpty(d, i) {
        assert w == [PayloadOf(d, i)] + SavePayloadFrom(d, i + 1);
        assert w[1..] == SavePayloadFrom(d, i + 1);
        assert LoadFrom(bits, w, i, acc) == LoadFrom(bits, w[1..], i + 1, Put(acc, w[0]));
        LoadFromSaved(d, i + 1, Put(acc, PayloadOf(d, i)));
      } else {
        assert w == SavePayloadFrom(d, i + 1);
        assert LoadFrom(bits, w, i, acc) == LoadFrom(bits, w, i + 1, EmptyMap(acc, i));
        LoadFromSaved(d, i + 1, EmptyMap(acc, i));
      }
    }
  }

  /** Every dictionary survives the wire. */
  lemma DictionaryRoundTrip(d: Dictionary)
    ensures LoadDictionary(SaveDictionary(d)) == Some(d)
  {
    LoadFromSaved(d, 0, EMPTY_DICTIONARY);
  }

  /* ---------------- Interpolation ---------------- */

  /** The weight of the closer sample. */
  function PrimaryWeight(alpha: real): (w: real)
    ensures w >= 0.5
    ensures 0.0 <= alpha <= 1.0 ==> w <= 1.0
  {
    if alpha < 0.5 then 1.0 - alpha else alpha
  }

  function BlendFloats(primary: map<string, real>, secondary: map<string, real>, pw: real): (r: map<string, real>)
    ensures r.Keys == primary.Keys
    ensures forall k :: k in r && k !in secondary ==> r[k] == primary[k]
  {
    map k | k in primary :: if k in secondary then pw * primary[k] + (1.0 - pw) * secondary[k] else primary[k]
  }

  function BlendVectors(primary: map<string, Vec3>, secondary: map<string, Vec3>, pw: real): (r: map<string, Vec3>)
    ensures r.Keys == primary.Keys
    ensures forall k :: k in r && k !in secondary ==> r[k] == primary[k]
  {
    map k | k in primary ::
      if k in secondary then Add(Scale(primary[k], pw), Scale(secondary[k], 1.0 - pw)) else primary[k]
  }

  /** Rotators are blended in quaternion space by `slerp`, which this model
      takes as given. */
  function BlendRotators(primary: map<string, Rotator>, secondary: map<string, Rotator>, sw: real,
                         slerp: (Rotator, Rotator, real) -> Rotator): (r: map<string, Rotator>)
    ensures r.Keys == primary.Keys
    ensures forall k :: k in r && k !in secondary ==> r[k] == primary[k]
  {
    map k | k in primary :: if k in secondary then slerp(primary[k], secondary[k], sw) else primary[k]
  }

  function InterpolateDictionary(from: Dictionary, to: Dictionary, alpha: real,
                                 slerp: (Rotator, Rotator, real) -> Rotator): (r: Dictionary)
    // the closer sample supplies the bool, int and name maps outright
    ensures alpha < 0.5 ==> r.bools == from.bools && r.ints == from.ints && r.names == from.names
    ensures alpha >= 0.5 ==> r.bools == to.bools && r.ints == to.ints && r.names == to.names
    // and decides which float, vector and rotator keys exist
    ensures alpha < 0.5 ==> r.floats.Keys == from.floats.Keys && r.vectors.Keys == from.vectors.Keys
                            && r.rotators.Keys == from.rotators.Keys
    ensures alpha >= 0.5 ==> r.floats.Keys == to.floats.Keys && r.vectors.Keys == to.vectors.Keys
                             && r.rotators.Keys == to.rotators.Keys
  {
    var primary := if alpha < 0.5 then from else to;
    var secondary := if alpha < 0.5 then to else from;
    var pw := PrimaryWeight(alpha);
    var sw := 1.0 - pw;
    Dictionary(primary.bools, primary.ints,
               BlendFloats(primary.floats, secondary.floats, pw),
               BlendVectors(primary.vectors, secondary.vectors, pw),
               BlendRotators(primary.rotators, secondary.rotators, sw, slerp),
               primary.names)
  }

  /** The primary and secondary weights form a convex pair, the primary
      one dominating. */
  lemma WeightsAreConvex(alpha: real)
    requires 0.0 <= alpha <= 1.0
    ensures 0.5 <= PrimaryWeight(alpha) <= 1.0
    ensures 0.0 <= 1.0 - PrimaryWeight(alpha) <= 0.5
    ensures PrimaryWeight(alpha) + (1.0 - PrimaryWeight(alpha)) == 1.0
  {
  }

  /** For alpha within [0, 1] a float present in both samples is blended to
      a value between the two. */
  lemma {:induction false} BlendedFloatBetween(from: Dictionary, to: Dictionary, alpha: real,
                                               slerp: (Rotator, Rotator, real) -> Rotator, k: string)
    requires 0.0 <= alpha <= 1.0
    requires k in from.floats && k in to.floats
    ensures var v := InterpolateDictionary(from, to, alpha, slerp).floats[k];
            (from.floats[k] <= v <= to.floats[k]) || (to.floats[k] <= v <= from.floats[k])
  {
    var pw := PrimaryWeight(alpha);
    var p := if alpha < 0.5 then from.floats[k] else to.floats[k];
    var s := if alpha < 0.5 then to.floats[k] else from.floats[k];
    var v := pw * p + (1.0 - pw) * s;
    assert InterpolateDictionary(from, to, alpha, slerp).floats[k] == v;
    assert v - s == pw * (p - s);
    assert v - p == (1.0 - pw) * (s - p);
    if p <= s {
      MulNonneg(pw, s - p);
      MulNonneg(1.0 - pw, s - p);
    } else {
      MulNonneg(pw, p - s);
      MulNonneg(1.0 - pw, p - s);
    }
  }

  /* ---------------- Merge and reconciliation ---------------- */

  function MergeBools(into: map<string, bool>, from: map<string, bool>): (r: map<string, bool>)
    ensures r.Keys == into.Keys + from.Keys
    ensures forall k :: k in r ==> (r[k] <==> (k in into && into[k]) || (k in from && from[k]))
  {
    map k | k in into.Keys + from.Keys :: (k in into && into[k]) || (k in from && from[k])
  }

  /** A map merge that only adds the keys `into` lacks. */
  function KeepExisting<V>(into: map<string, V>, from: map<string, V>): (r: map<string, V>)
    ensures r.Keys == into.Keys + from.Keys
    ensures forall k :: k in into ==> r[k] == into[k]
    ensures forall k :: k in from && k !in into ==> r[k] == from[k]
  {
    from + into
  }

  /** Merging another dictionary into this one: booleans are ORed, every
      other map only gains the keys it lacks. */
  function MergeDictionary(d: Dictionary, from: Dictionary): (r: Dictionary)
    ensures r.bools.Keys == d.bools.Keys + from.bools.Keys
    ensures forall k :: k in r.bools ==>
              (r.bools[k] <==> (k in d.bools && d.bools[k]) || (k in from.bools && from.bools[k]))
    ensures r.ints.Keys == d.ints.Keys + from.ints.Keys
    ensures forall k :: k in d.ints ==> r.ints[k] == d.ints[k]
    ensures forall k :: k in from.ints && k !in d.ints ==> r.ints[k] == from.ints[k]
    ensures r.floats.Keys == d.floats.Keys + from.floats.Keys
    ensures forall k :: k in d.floats ==> r.floats[k] == d.floats[k]
    ensures forall k :: k in from.floats && k !in d.floats ==> r.floats[k] == from.floats[k]
    ensures r.vectors.Keys == d.vectors.Keys + from.vectors.Keys
    ensures forall k :: k in d.vectors ==> r.vectors[k] == d.vectors[k]
    ensures forall k :: k in from.vectors && k !in d.vectors ==> r.vectors[k] == from.vectors[k]
    ensures r.rotators.Keys == d.rotators.Keys + from.rotators.Keys
    ensures forall k :: k in d.rotators ==> r.rotators[k] == d.rotators[k]
    ensures forall k :: k in from.rotators && k !in d.rotators ==> r.rotators[k] == from.rotators[k]
    ensures r.names.Keys == d.names.Keys + from.names.Keys
    ensures forall k :: k in d.names ==> r.names[k] == d.names[k]
    ensures forall k :: k in from.names && k !in d.names ==> r.names[k] == from.names[k]
  {
    Dictionary(MergeBools(d.bools, from.bools), KeepExisting(d.ints, from.ints), KeepExisting(d.floats, from.floats),
               KeepExisting(d.vectors, from.vectors), KeepExisting(d.rotators, from.rotators),
               KeepExisting(d.names, from.names))
  }

  /** Keeping existing keys: a second merge of the same map adds nothing,
      and merging a map into itself or merging nothing changes nothing. */
  lemma KeepExistingIdempotent<V>(into: map<string, V>, from: map<string, V>)
    ensures KeepExisting(KeepExisting(into, from), from) == KeepExisting(into, from)
    ensures KeepExisting(into, into) == into && KeepExisting(into, map[]) == into
  {
  }

  lemma MergeBoolsIdempotent(into: map<string, bool>, from: map<string, bool>)
    ensures MergeBools(MergeBools(into, from), from) == MergeBools(into, from)
    ensures MergeBools(into, into) == into && MergeBools(into, map[]) == into
  {
  }

  /** Merging is idempotent, and merging an empty dictionary or a
      dictionary into itself changes nothing. */
  lemma MergeIdempotent(d: Dictionary, from: Dictionary)
    ensures MergeDictionary(MergeDictionary(d, from), from) == MergeDictionary(d, from)
    ensures MergeDictionary(d, EMPTY_DICTIONARY) == d
    ensures MergeDictionary(d, d) == d
  {
    MergeBoolsIdempotent(d.bools, from.bools);
    KeepExistingIdempotent(d.ints, from.ints);
    KeepExistingIdempotent(d.floats, from.floats);
    KeepExistingIdempotent(d.vectors, from.vectors);
    KeepExistingIdempotent(d.rotators, from.rotators);
    KeepExistingIdempotent(d.names, from.names);
  }

  /** Dictionary data never asks for a correction. */
  function ShouldReconcileDictionary(d: Dictionary, authority: Dictionary): (r: bool)
    ensures !r
  {
    false
  }
}
