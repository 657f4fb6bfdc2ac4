/**
 * FJoltMoverDataCollection: a list of typed data blocks keyed by struct
 * type, where a lookup by type also finds blocks of a subtype. A struct
 * type is its name and the names of its super structs; what the blocks
 * hold is an opaque value, and the per-type hooks (ShouldReconcile,
 * Interpolate, Merge) are parameters.
 */
module MoverDataCollection {
  import opened Common

  /** FJoltMoverDataStructBase's name: every replicated block type must derive from it. */
  const DATA_STRUCT_BASE: string := "JoltMoverDataStructBase"

  /** A UScriptStruct: its name and the chain of its super structs, nearest first. */
  datatype StructType = StructType(name: string, supers: seq<string>)

  /** Walking the super chain from `t` reaches `requested`. */
  predicate IsA(t: StructType, requested: string)
  {
    requested == t.name || requested in t.supers
  }

  /** The replication guard: some strict super struct is the data-struct base. */
  predicate DerivesFromBase(t: StructType)
  {
    DATA_STRUCT_BASE in t.supers
  }

  /** One data block. */
  datatype Data<V> = Data(struct: StructType, value: V)

  /** Some block answers a lookup for `requested`. */
  predicate Present<V>(c: seq<Data<V>>, requested: string)
  {
    exists i :: 0 <= i < |c| && IsA(c[i].struct, requested)
  }

  /** FindDataByType: the index of the first block whose type is or derives from `requested`. */
  function FindDataByType<V>(c: seq<Data<V>>, requested: string): (r: Option<nat>)
    ensures r.Some? ==> r.value < |c| && IsA(c[r.value].struct, requested)
    ensures r.Some? ==> forall j :: 0 <= j < r.value ==> !IsA(c[j].struct, requested)
    ensures r.None? <==> !Present(c, requested)
  {
    if |c| == 0 then None
    else if IsA(c[0].struct, requested) then Some(0)
    else
      var rest := FindDataByType(c[1..], requested);
      assert forall j :: 1 <= j < |c| ==> c[j] == c[1..][j - 1];
      if rest.Some? then Some(rest.value + 1) else None
  }

  /** Blocks are never dropped and keep their types: whatever was present stays present. */
  predicate Grows<V>(c: seq<Data<V>>, d: seq<Data<V>>)
  {
    |c| <= |d| && forall i :: 0 <= i < |c| ==> d[i].struct == c[i].struct
  }

  lemma GrowsKeepsPresent<V>(c: seq<Data<V>>, d: seq<Data<V>>, requested: string)
    requires Grows(c, d) && Present(c, requested)
    ensures Present(d, requested)
  {
    var i :| 0 <= i < |c| && IsA(c[i].struct, requested);
    assert IsA(d[i].struct, requested);
  }

  lemma GrowsTrans<V>(c: seq<Data<V>>, d: seq<Data<V>>, e: seq<Data<V>>)
    requires Grows(c, d) && Grows(d, e)
    ensures Grows(c, e)
  {
  }

  /**
   * AddDataByType: refuses (None, nothing added) when a block already
   * answers for the type; otherwise appends a fresh block of it.
   */
  function AddDataByType<V>(c: seq<Data<V>>, t: StructType, initial: V): (r: (Option<nat>, seq<Data<V>>))
    ensures Present(c, t.name) ==> r.0.None? && r.1 == c
    ensures !Present(c, t.name) ==> r.0 == Some(|c|) && r.1 == c + [Data(t, initial)]
  {
    if FindDataByType(c, t.name).Some? then (None, c) else (Some(|c|), c + [Data(t, initial)])
  }

  /** FindOrAddDataByType: the existing block, or a new one. */
  function FindOrAddDataByType<V>(c: seq<Data<V>>, t: StructType, initial: V): (r: (nat, seq<Data<V>>))
    ensures r.0 < |r.1| && IsA(r.1[r.0].struct, t.name)
    ensures Present(c, t.name) ==> r.1 == c && Some(r.0) == FindDataByType(c, t.name)
    ensures !Present(c, t.name) ==> r.1 == c + [Data(t, initial)]
  {
    match FindDataByType(c, t.name)
    case Some(i) => (i, c)
    case None => (|c|, c + [Data(t, initial)])
  }

  /** FindOrAdd never adds a second block answering for a type that already had one. */
  lemma FindOrAddNeverDuplicates<V>(c: seq<Data<V>>, t: StructType, initial: V)
    ensures var r := FindOrAddDataByType(c, t, initial).1;
      |r| <= |c| + 1 && Present(r, t.name)
      && (Present(c, t.name) ==> |r| == |c|)
  {
  }

  /**
   * AddDataByCopy: a block already answering for the copy's type takes the
   * copied data in place (keeping its own type); otherwise a clone is
   * appended.
   */
  function AddDataByCopy<V>(c: seq<Data<V>>, d: Data<V>): (r: seq<Data<V>>)
    ensures Grows(c, r) && |r| <= |c| + 1
    ensures Present(r, d.struct.name)
    ensures Present(c, d.struct.name) ==> |r| == |c|
  {
    match FindDataByType(c, d.struct.name)
    case Some(i) => c[i := Data(c[i].struct, d.value)]
    case None =>
      var r := c + [d];
      assert r[|c|] == d;
      r
  }

  /** The copied data lands in the block a later lookup by its type finds. */
  lemma AddDataByCopyFindsCopy<V>(c: seq<Data<V>>, d: Data<V>)
    ensures var r := AddDataByCopy(c, d);
      FindDataByType(r, d.struct.name).Some? && r[FindDataByType(r, d.struct.name).value].value == d.value
  {
    var r := AddDataByCopy(c, d);
    match FindDataByType(c, d.struct.name)
    case Some(i) =>
      assert IsA(r[i].struct, d.struct.name);
      assert forall j :: 0 <= j < i ==> r[j].struct == c[j].struct;
      assert FindDataByType(r, d.struct.name) == Some(i);
    case None =>
      assert r[|c|] == d;
      assert forall j :: 0 <= j < |c| ==> r[j] == c[j];
      assert FindDataByType(r, d.struct.name) == Some(|c|);
  }

  /** RemoveDataByType: removes the first block answering for the type, if any, and says whether it did. */
  function RemoveDataByType<V>(c: seq<Data<V>>, requested: string): (r: (bool, seq<Data<V>>))
    ensures r.0 <==> Present(c, requested)
    ensures r.0 ==> |r.1| == |c| - 1 && r.1 == c[..FindDataByType(c, requested).value] + c[FindDataByType(c, requested).value + 1..]
    ensures !r.0 ==> r.1 == c
  {
    match FindDataByType(c, requested)
    case Some(i) => (true, c[..i] + c[i + 1..])
    case None => (false, c)
  }

  /** AddOrOverwriteData: drops the block answering for the new block's type, then appends the new block. */
  function AddOrOverwriteData<V>(c: seq<Data<V>>, d: Data<V>): (r: seq<Data<V>>)
    ensures |r| == (if Present(c, d.struct.name) then |c| else |c| + 1)
    ensures r[|r| - 1] == d
  {
    RemoveDataByType(c, d.struct.name).1 + [d]
  }

  /**
   * ShouldReconcile against the authority's collection: the counts differ,
   * or some block has no counterpart by type, or a counterpart pair needs
   * reconciling (`differs` is the blocks' own test).
   */
  function ShouldReconcile<V>(c: seq<Data<V>>, authority: seq<Data<V>>, differs: (V, V) -> bool): (r: bool)
  {
    |c| != |authority| || ElementsReconcile(c, authority, differs)
  }

  function ElementsReconcile<V>(c: seq<Data<V>>, authority: seq<Data<V>>, differs: (V, V) -> bool): bool
  {
    if |c| == 0 then false
    else
      match FindDataByType(authority, c[0].struct.name)
      case None => true
      case Some(k) => differs(c[0].value, authority[k].value) || ElementsReconcile(c[1..], authority, differs)
  }

  /** The block of `c` at `i` has no counterpart or a counterpart that differs. */
  predicate Mismatch<V>(c: seq<Data<V>>, authority: seq<Data<V>>, differs: (V, V) -> bool, i: int)
    requires 0 <= i < |c|
  {
    match FindDataByType(authority, c[i].struct.name)
    case None => true
    case Some(k) => differs(c[i].value, authority[k].value)
  }

  /** Reconciliation is needed exactly when the counts differ or some block mismatches. */
  lemma {:induction false} ShouldReconcileMeans<V>(c: seq<Data<V>>, authority: seq<Data<V>>, differs: (V, V) -> bool)
    ensures ShouldReconcile(c, authority, differs)
      <==> |c| != |authority| || exists i :: 0 <= i < |c| && Mismatch(c, authority, differs, i)
  {
    ElementsReconcileMeans(c, authority, differs);
  }

  lemma {:induction false} ElementsReconcileMeans<V>(c: seq<Data<V>>, authority: seq<Data<V>>, differs: (V, V) -> bool)
    ensures ElementsReconcile(c, authority, differs) <==> exists i :: 0 <= i < |c| && Mismatch(c, authority, differs, i)
  {
    if |c| > 0 {
      var tail := c[1..];
      ElementsReconcileMeans(tail, authority, differs);
      if Mismatch(c, authority, differs, 0) {
      } else if exists i :: 0 <= i < |tail| && Mismatch(tail, authority, differs, i) {
        var i :| 0 <= i < |tail| && Mismatch(tail, authority, differs, i);
        assert tail[i] == c[i + 1];
        assert Mismatch(c, authority, differs, i + 1);
      } else {
        forall i | 0 <= i < |c|
          ensures !Mismatch(c, authority, differs, i)
        {
          if i > 0 {
            assert tail[i - 1] == c[i];
            assert !Mismatch(tail, authority, differs, i - 1);
          }
        }
      }
    }
  }

  /** HasSameContents: same count and the same block types position by position. */
  predicate HasSameContents<V>(c: seq<Data<V>>, other: seq<Data<V>>)
  {
    |c| == |other| && forall i :: 0 <= i < |c| ==> c[i].struct == other[i].struct
  }

  // ---------------------------------------------------------------------
  // Interpolate and Merge
  // ---------------------------------------------------------------------

  /** The hooks a block type provides. `initial` is a freshly initialised block value. */
  datatype Hooks<!V> = Hooks(interpolate: (V, V, real) -> V, merge: (V, V) -> V, initial: V)

  /** The first pass of Interpolate: blocks of From, interpolated when To has the type, copied otherwise. */
  function InterpolateFrom<V>(acc: seq<Data<V>>, from: seq<Data<V>>, to: seq<Data<V>>, pct: real, h: Hooks<V>): (r: seq<Data<V>>)
    ensures Grows(acc, r)
    ensures forall j :: 0 <= j < |from| ==> Present(r, from[j].struct.name)
    decreases |from|
  {
    if |from| == 0 then acc
    else
      var f := from[0];
      var next :=
        match FindDataByType(to, f.struct.name)
        case Some(k) =>
          var (i, added) := FindOrAddDataByType(acc, f.struct, h.initial);
          var u := added[i := Data(added[i].struct, h.interpolate(f.value, to[k].value, pct))];
          assert IsA(u[i].struct, f.struct.name);
          u
        case None => AddDataByCopy(acc, f);
      assert Present(next, f.struct.name) && Grows(acc, next);
      var r := InterpolateFrom(next, from[1..], to, pct, h);
      GrowsKeepsPresent(next, r, f.struct.name);
      assert forall j :: 1 <= j < |from| ==> from[j] == from[1..][j - 1];
      r
  }

  /** The types of the From blocks, exactly (the set Interpolate collects). */
  function Types<V>(s: seq<Data<V>>): set<string>
  {
    set i | 0 <= i < |s| :: s[i].struct.name
  }

  /** The second pass: blocks of To whose exact type From did not have are copied in. */
  function InterpolateToOnly<V>(acc: seq<Data<V>>, to: seq<Data<V>>, fromTypes: set<string>): (r: seq<Data<V>>)
    ensures Grows(acc, r)
    ensures forall j :: 0 <= j < |to| && to[j].struct.name !in fromTypes ==> Present(r, to[j].struct.name)
    decreases |to|
  {
    if |to| == 0 then acc
    else
      var t := to[0];
      var next := if t.struct.name in fromTypes then acc else AddDataByCopy(acc, t);
      var r := InterpolateToOnly(next, to[1..], fromTypes);
      assert forall j :: 1 <= j < |to| ==> to[j] == to[1..][j - 1];
      if t.struct.name in fromTypes then r
      else GrowsKeepsPresent(next, r, t.struct.name); r
  }

  /** Interpolate into the collection `c` (normally empty) from From and To. */
  function Interpolate<V>(c: seq<Data<V>>, from: seq<Data<V>>, to: seq<Data<V>>, pct: real, h: Hooks<V>): (r: seq<Data<V>>)
    ensures Grows(c, r)
  {
    var first := InterpolateFrom(c, from, to, pct, h);
    var r := InterpolateToOnly(first, to, Types(from));
    GrowsTrans(c, first, r);
    r
  }

  /** After Interpolate, every type of From and every type of To can be found. */
  lemma InterpolateKeepsAllTypes<V>(c: seq<Data<V>>, from: seq<Data<V>>, to: seq<Data<V>>, pct: real, h: Hooks<V>)
    ensures var r := Interpolate(c, from, to, pct, h);
      (forall j :: 0 <= j < |from| ==> Present(r, from[j].struct.name))
      && (forall j :: 0 <= j < |to| ==> Present(r, to[j].struct.name))
  {
    var first := InterpolateFrom(c, from, to, pct, h);
    var r := InterpolateToOnly(first, to, Types(from));
    forall j | 0 <= j < |from|
      ensures Present(r, from[j].struct.name)
    {
      GrowsKeepsPresent(first, r, from[j].struct.name);
    }
    forall j | 0 <= j < |to|
      ensures Present(r, to[j].struct.name)
    {
      var name := to[j].struct.name;
      if name in Types(from) {
        var i :| 0 <= i < |from| && from[i].struct.name == name;
        GrowsKeepsPresent(first, r, from[i].struct.name);
      }
    }
  }

  /** Merge: a block of From merges into the block answering for its type, or is copied in. */
  function Merge<V>(c: seq<Data<V>>, from: seq<Data<V>>, h: Hooks<V>): (r: seq<Data<V>>)
    ensures Grows(c, r) && |r| <= |c| + |from|
    ensures forall j :: 0 <= j < |from| ==> Present(r, from[j].struct.name)
    decreases |from|
  {
    if |from| == 0 then c
    else
      var f := from[0];
      var next :=
        match FindDataByType(c, f.struct.name)
        case Some(i) => c[i := Data(c[i].struct, h.merge(c[i].value, f.value))]
        case None => AddDataByCopy(c, f);
      var r := Merge(next, from[1..], h);
      GrowsKeepsPresent(next, r, f.struct.name);
      assert forall j :: 1 <= j < |from| ==> from[j] == from[1..][j - 1];
      r
  }

  // ---------------------------------------------------------------------
  // NetSerializeDataArray
  // ---------------------------------------------------------------------

  /**
   * The wire, as a sequence of fields: the uint8 block count, then per
   * block its struct reference (None for a null reference, or a reference
   * the package map could not resolve when `resolved` is false) and the
   * block's own payload (None when the block's NetSerialize fails).
   */
  datatype Field<V> =
    | CountField(count: Byte)
    | StructField(struct: Option<StructType>, resolved: bool)
    | PayloadField(payload: Option<V>)

  /** The fields one block writes. */
  function SaveBlock<V>(d: Data<V>): seq<Field<V>>
  {
    [StructField(Some(d.struct), true), PayloadField(Some(d.value))]
  }

  function SaveBlocks<V>(c: seq<Data<V>>): seq<Field<V>>
  {
    if |c| == 0 then [] else SaveBlock(c[0]) + SaveBlocks(c[1..])
  }

  /** Saving: the count truncated to uint8, then that many blocks. */
  function Save<V>(c: seq<Data<V>>): (r: seq<Field<V>>)
    ensures |r| >= 1 && r[0] == CountField(|c| % 256)
  {
    [CountField(|c| % 256)] + SaveBlocks(c[..|c| % 256])
  }

  /**
   * Loading the blocks after the count. A null reference leaves a null
   * slot; an unresolved reference, a type not derived from the data-struct
   * base or a failed payload sets the archive error and stops. A short
   * stream is an error too.
   */
  function LoadBlocks<V>(fields: seq<Field<V>>, n: nat): (r: Option<seq<Option<Data<V>>>>)
    ensures r.Some? ==> |r.value| == n
    decreases n
  {
    if n == 0 then Some([])
    else if |fields| == 0 || !fields[0].StructField? then None
    else if fields[0].struct.None? then
      if !fields[0].resolved then None
      else
        match LoadBlocks(fields[1..], n - 1)
        case None => None
        case Some(rest) => Some([None] + rest)
    else if !DerivesFromBase(fields[0].struct.value) then None
    else if |fields| < 2 || !fields[1].PayloadField? || fields[1].payload.None? then None
    else
      match LoadBlocks(fields[2..], n - 1)
      case None => None
      case Some(rest) => Some([Some(Data(fields[0].struct.value, fields[1].payload.value))] + rest)
  }

  /** Loading: None when the archive ends in error. */
  function Load<V>(fields: seq<Field<V>>): (r: Option<seq<Option<Data<V>>>>)
    ensures r.Some? ==> |fields| >= 1 && fields[0].CountField? && |r.value| == fields[0].count
  {
    if |fields| == 0 || !fields[0].CountField? then None
    else LoadBlocks(fields[1..], fields[0].count)
  }

  /** Every block type derives from the data-struct base. */
  predicate Replicable<V>(c: seq<Data<V>>)
  {
    forall i :: 0 <= i < |c| ==> DerivesFromBase(c[i].struct)
  }

  function Wrap<V>(c: seq<Data<V>>): (r: seq<Option<Data<V>>>)
    ensures |r| == |c| && forall i :: 0 <= i < |c| ==> r[i] == Some(c[i])
  {
    if |c| == 0 then [] else [Some(c[0])] + Wrap(c[1..])
  }

  lemma {:induction false} LoadSavedBlocks<V>(c: seq<Data<V>>, tail: seq<Field<V>>)
    requires Replicable(c)
    ensures LoadBlocks(SaveBlocks(c) + tail, |c|) == Some(Wrap(c))
  {
    if |c| > 0 {
      var fs := SaveBlocks(c) + tail;
      assert fs == SaveBlock(c[0]) + (SaveBlocks(c[1..]) + tail);
      assert fs[2..] == SaveBlocks(c[1..]) + tail;
      LoadSavedBlocks(c[1..], tail);
    }
  }

  /**
   * A collection of fewer than 256 replicable blocks survives the wire:
   * every block comes back, with its type and payload, in order.
   */
  lemma {:induction false} LoadInvertsSave<V>(c: seq<Data<V>>)
    requires |c| < 256 && Replicable(c)
    ensures Load(Save(c)) == Some(Wrap(c))
  {
    assert c[..|c| % 256] == c;
    assert Save(c)[1..] == SaveBlocks(c) + [];
    LoadSavedBlocks(c, []);
  }

  /** The count is a uint8: a collection of 256 blocks arrives empty. */
  lemma CountWrapsAt256<V>(c: seq<Data<V>>)
    requires |c| == 256
    ensures Load(Save(c)) == Some([])
  {
  }

  /** A block whose type does not derive from the data-struct base is refused with an error. */
  lemma LoadRefusesForeignStruct<V>(t: StructType, v: V)
    requires !DerivesFromBase(t)
    ensures Load([CountField(1), StructField(Some(t), true), PayloadField(Some(v))]) == None
  {
  }
}
