/**
 * The lag-compensation history of one actor: a ring of saved states whose
 * logical order runs from the oldest to the newest, a cutoff index a
 * rewind may not pass, and the lookup of the state at a past time.
 * Float times are exact reals; the ring's slots hold an optional state
 * (an unset shared pointer is None).
 */
module LagCompHistory {
  import opened Common
  import opened Bits
  import opened Conversions

  /** One saved state of an actor. */
  datatype LagData = LagData(
    simTimeMs: real,
    location: Vec3,
    rotation: Quat,
    collisionExtent: Vec3,
    canRewindFurther: bool)

  const ZERO_VECTOR: Vec3 := Vec3(0.0, 0.0, 0.0)
  const IDENTITY_QUAT: Quat := Quat(0.0, 0.0, 0.0, 1.0)

  /** A state reset to its defaults and stamped with a time. */
  function DefaultData(simTimeMs: real): LagData
  {
    LagData(simTimeMs, ZERO_VECTOR, IDENTITY_QUAT, ZERO_VECTOR, true)
  }

  /** A reflected struct type: its identity and whether it derives from the base state type. */
  datatype StructType = StructType(id: nat, isChildOfLagData: bool)

  /** The base state type itself. */
  const LAG_DATA_STRUCT: StructType := StructType(0, true)

  /**
   * The circular buffer of saved states with its head (the next slot to
   * write) and its count of entries.
   */
  datatype Ring = Ring(slots: seq<Option<LagData>>, head: nat, num: nat)

  datatype History = History(ring: Ring, dataType: StructType, lastPossibleRewindIndex: int)

  // ---------------------------------------------------------------------
  // Ring arithmetic
  // ---------------------------------------------------------------------

  /** The exponent of the least power of two at or above n. */
  function CeilLog2(n: nat): (k: nat)
    ensures Pow2(k) >= n
    ensures k > 0 ==> Pow2(k - 1) < n
    decreases n
  {
    if n <= 1 then 0
    else
      var m := (n + 1) / 2;
      var k' := CeilLog2(m);
      assert Pow2(k' + 1) == 2 * Pow2(k');
      1 + k'
  }

  lemma {:induction false} CeilLog2OfPow2(k: nat)
    ensures CeilLog2(Pow2(k)) == k
  {
    if k > 0 {
      CeilLog2OfPow2(k - 1);
      assert (Pow2(k) + 1) / 2 == Pow2(k - 1);
    }
  }

  lemma {:induction false} Pow2Add(a: nat, b: nat)
    ensures Pow2(a + b) == Pow2(a) * Pow2(b)
  {
    if b > 0 {
      Pow2Add(a, b - 1);
      assert Pow2(a + b) == 2 * Pow2(a + b - 1);
    }
  }

  /**
   * The ring's capacity: the circular buffer rounds the requested size,
   * raised to at least 2, up to a power of two.
   */
  function Capacity(maxSize: int): (cap: nat)
    requires maxSize <= INT32_MAX
    ensures cap >= Max(maxSize, 2) && cap < 2 * Max(maxSize, 2)
    ensures cap == Pow2(CeilLog2(cap)) && cap <= 0x8000_0000
  {
    var n := Max(maxSize, 2);
    var k := CeilLog2(n);
    CeilLog2OfPow2(k);
    assert Pow2(k) == 2 * Pow2(k - 1);
    Pow2Table();
    assert k <= 31 by {
      if k > 31 { Pow2Mono(31, k - 1); }
    }
    Pow2Mono(k, 31);
    Pow2(k)
  }

  /** Logical position i (0 = oldest) as a slot of the ring. */
  function Slot(r: Ring, i: nat): nat
    requires 0 < |r.slots| && r.num <= |r.slots|
  {
    (r.head + (|r.slots| - r.num) + i) % |r.slots|
  }

  /**
   * The ring's shape: a power-of-two capacity of at least 2, the head a
   * slot, and as many entries as the capacity at most, each logical
   * position holding a state. Until the ring wraps, the head equals the
   * count and the slots from the head on are unset.
   */
  predicate RingValid(r: Ring)
  {
    var cap := |r.slots|;
    2 <= cap <= 0x8000_0000 && cap == Pow2(CeilLog2(cap)) &&
    r.head < cap && r.num <= cap &&
    (r.num < cap ==> r.head == r.num && forall j :: r.num <= j < cap ==> r.slots[j].None?) &&
    (forall i :: 0 <= i < r.num ==> r.slots[Slot(r, i)].Some?)
  }

  /** The saved states from the oldest to the newest. */
  function View(r: Ring): (es: seq<LagData>)
    requires RingValid(r)
    ensures |es| == r.num
    ensures forall i :: 0 <= i < r.num ==> r.slots[Slot(r, i)] == Some(es[i])
  {
    seq(r.num, i requires 0 <= i < r.num => r.slots[Slot(r, i)].value)
  }

  /** A valid history: a valid ring, and a cutoff that is INDEX_NONE or an entry's position. */
  predicate ValidHistory(h: History)
  {
    RingValid(h.ring) &&
    (h.lastPossibleRewindIndex == INDEX_NONE || 0 <= h.lastPossibleRewindIndex < h.ring.num)
  }

  function Entries(h: History): (es: seq<LagData>)
    requires ValidHistory(h)
    ensures |es| == h.ring.num
  {
    View(h.ring)
  }

  lemma ModOfMod(x: nat, a: nat, b: nat)
    requires a > 0 && b > 0
    ensures (x % (a * b)) % a == x % a
  {
    var q, r := x / (a * b), x % (a * b);
    assert x == (a * b) * q + r;
    assert x == a * (b * q) + r;
    DivUnique(r, a, r / a, r % a);
    DivUnique(x, a, b * q + r / a, r % a);
  }

  lemma ModAddMod(a: nat, b: nat, c: nat)
    requires c > 0
    ensures ((a % c) + b) % c == (a + b) % c
  {
    var q := a / c;
    assert a == c * q + a % c;
    var t := (a % c) + b;
    DivUnique(a + b, c, q + t / c, t % c);
  }

  /** A power-of-two capacity divides 2^32. */
  lemma CapDividesU32(cap: nat) returns (m: nat)
    requires 2 <= cap <= 0x8000_0000 && cap == Pow2(CeilLog2(cap))
    ensures m > 0 && cap * m == U32_LIMIT
  {
    var k := CeilLog2(cap);
    Pow2Table();
    assert k <= 32 by {
      if k > 32 { Pow2Mono(32, k); }
    }
    Pow2Add(k, 32 - k);
    m := Pow2(32 - k);
  }

  /**
   * Masking a 32-bit value with capacity - 1, as the circular buffer does
   * for every index, is reduction modulo the capacity.
   */
  lemma MaskIsMod(cap: nat, x: nat)
    requires 2 <= cap <= 0x8000_0000 && cap == Pow2(CeilLog2(cap))
    ensures BitAnd(x % U32_LIMIT, cap - 1) == x % cap
  {
    LowMaskIsMod(x % U32_LIMIT, CeilLog2(cap));
    var m := CapDividesU32(cap);
    ModOfMod(x, cap, m);
  }

  /**
   * GetAt's two masked additions (the oldest slot, head + capacity -
   * count, masked with capacity - 1; then the index added in 32 bits and
   * masked again) amount to one addition modulo the capacity.
   */
  lemma MaskedSlot(cap: nat, base: nat, index: nat)
    requires 2 <= cap <= 0x8000_0000 && cap == Pow2(CeilLog2(cap))
    ensures BitAnd((BitAnd(base % U32_LIMIT, cap - 1) + index) % U32_LIMIT, cap - 1) == (base + index) % cap
  {
    MaskIsMod(cap, base);
    MaskIsMod(cap, base % cap + index);
    ModAddMod(base, index, cap);
  }

  /**
   * GetAt: logical index 0 is the oldest entry and count - 1 the newest;
   * the slot is computed as MaskedSlot shows. Any index reads some slot.
   */
  function GetAt(r: Ring, index: nat): (d: Option<LagData>)
    requires RingValid(r) && index < U32_LIMIT
    ensures index < r.num ==> d == Some(View(r)[index])
  {
    r.slots[(r.head + (|r.slots| - r.num) + index) % |r.slots|]
  }

  /** Last: GetAt of the count minus one, taken as an unsigned 32-bit index. */
  function Last(r: Ring): (d: Option<LagData>)
    requires RingValid(r)
    ensures r.num > 0 ==> d == Some(View(r)[r.num - 1])
  {
    var index := (r.num + U32_LIMIT - 1) % U32_LIMIT;
    assert r.num > 0 ==> index == r.num - 1 by {
      if r.num > 0 { DivUnique(r.num + U32_LIMIT - 1, U32_LIMIT, 1, r.num - 1); }
    }
    GetAt(r, index)
  }

  /** On an empty ring Last reads an unset slot. */
  lemma LastOfEmptyIsUnset(r: Ring)
    requires RingValid(r) && r.num == 0
    ensures Last(r) == None
  {
    var cap := |r.slots|;
    DivUnique(U32_LIMIT - 1, U32_LIMIT, 0, U32_LIMIT - 1);
    assert Last(r) == r.slots[(cap + (U32_LIMIT - 1)) % cap];
    var m := CapDividesU32(cap);
    DivUnique(cap + (U32_LIMIT - 1), cap, m, cap - 1);
  }

  /**
   * A new history: capacity from the requested size, and the requested
   * data type only if it derives from the base state type.
   */
  function NewHistory(dataType: StructType, maxSize: int): (h: History)
    requires maxSize <= INT32_MAX
    ensures ValidHistory(h) && Entries(h) == []
    ensures |h.ring.slots| >= maxSize && |h.ring.slots| >= 2
    ensures h.lastPossibleRewindIndex == INDEX_NONE
    ensures h.dataType == (if dataType.isChildOfLagData then dataType else LAG_DATA_STRUCT)
  {
    var cap := Capacity(maxSize);
    History(Ring(seq(cap, _ => None), 0, 0), if dataType.isChildOfLagData then dataType else LAG_DATA_STRUCT, INDEX_NONE)
  }

  // ---------------------------------------------------------------------
  // Ring updates
  // ---------------------------------------------------------------------

  /** Writes d at the head, advances the head and, unless full, the count. */
  function Write(r: Ring, d: LagData): Ring
    requires RingValid(r)
  {
    var cap := |r.slots|;
    Ring(r.slots[r.head := Some(d)], (r.head + 1) % cap, if r.num == cap then r.num else r.num + 1)
  }

  /** While the ring has not wrapped, logical position i is slot i. */
  lemma SlotIsIndex(r: Ring, i: nat)
    requires 0 < |r.slots| && r.num <= |r.slots| && r.head == r.num % |r.slots| && i < r.num
    ensures Slot(r, i) == i
  {
    var cap := |r.slots|;
    if r.num < cap {
      DivUnique(r.num, cap, 0, r.num);
      DivUnique(r.head + (cap - r.num) + i, cap, 1, i);
    } else {
      DivUnique(r.num, cap, 1, 0);
      DivUnique(r.head + (cap - r.num) + i, cap, 0, i);
    }
  }

  /** In a full ring, after the head advances, each position reads the slot of the next one; the last reads the old head. */
  lemma FullSlotShift(r: Ring, head': nat, i: nat)
    requires 0 < |r.slots| && r.num == |r.slots| && r.head < |r.slots| && head' == (r.head + 1) % |r.slots|
    requires i < r.num
    ensures (head' + i) % |r.slots| == (if i + 1 < r.num then Slot(r, i + 1) else r.head)
    ensures i + 1 < r.num ==> Slot(r, i + 1) != r.head
  {
    var cap := |r.slots|;
    ModAddMod(r.head + 1, i, cap);
    if i + 1 < cap {
      if r.head + i + 1 < cap {
        DivUnique(r.head + i + 1, cap, 0, r.head + i + 1);
      } else {
        DivUnique(r.head + i + 1, cap, 1, r.head + i + 1 - cap);
      }
    } else {
      DivUnique(r.head + i + 1, cap, 1, r.head);
    }
  }

  /** The shape of a write: slot at the head set, head advanced, count raised unless full. */
  predicate WroteAtHead(r: Ring, r': Ring, d: LagData)
    requires r.head < |r.slots|
  {
    var cap := |r.slots|;
    r'.slots == r.slots[r.head := Some(d)] && r'.head == (r.head + 1) % cap &&
    r'.num == (if r.num == cap then r.num else r.num + 1)
  }

  lemma AppendNotFull(r: Ring, r': Ring, d: LagData)
    requires RingValid(r) && r.num < |r.slots| && WroteAtHead(r, r', d)
    ensures RingValid(r') && r'.num == r.num + 1 && View(r') == View(r) + [d]
  {
    var cap := |r.slots|;
    assert r.head == r.num % cap by { DivUnique(r.num, cap, 0, r.num); }
    assert r'.head == r'.num % cap;
    forall i | 0 <= i < r'.num
      ensures r'.slots[Slot(r', i)] == if i < r.num then r.slots[Slot(r, i)] else Some(d)
    {
      SlotIsIndex(r', i);
      if i < r.num { SlotIsIndex(r, i); }
    }
    assert r'.num < cap ==> r'.head == r'.num by {
      if r'.num < cap { DivUnique(r'.num, cap, 0, r'.num); }
    }
    assert forall j :: r'.num <= j < cap ==> r'.slots[j] == r.slots[j];
    assert RingValid(r');
    var expected := View(r) + [d];
    assert forall i :: 0 <= i < r'.num ==> View(r')[i] == expected[i];
  }

  lemma AppendFull(r: Ring, r': Ring, d: LagData)
    requires RingValid(r) && r.num == |r.slots| && WroteAtHead(r, r', d)
    ensures RingValid(r') && r'.num == r.num && View(r') == View(r)[1..] + [d]
  {
    forall i | 0 <= i < r'.num
      ensures r'.slots[Slot(r', i)] == if i + 1 < r.num then r.slots[Slot(r, i + 1)] else Some(d)
    {
      FullSlotShift(r, r'.head, i);
    }
    assert RingValid(r');
    var expected := View(r)[1..] + [d];
    assert forall i :: 0 <= i < r'.num ==> View(r')[i] == expected[i];
  }

  /**
   * Writing at the head appends the state to the logical order; in a full
   * ring the oldest entry drops out and the count stays at the capacity.
   */
  lemma WriteAppends(r: Ring, d: LagData)
    requires RingValid(r)
    ensures var r' := Write(r, d);
      RingValid(r') && r'.num == Min(r.num + 1, |r.slots|) && |r'.slots| == |r.slots| &&
      View(r') == (if r.num == |r.slots| then View(r)[1..] else View(r)) + [d]
  {
    var r' := Write(r, d);
    assert WroteAtHead(r, r', d);
    if r.num < |r.slots| { AppendNotFull(r, r', d); } else { AppendFull(r, r', d); }
  }

  /** Distinct logical positions are distinct slots. */
  lemma SlotInjective(r: Ring, i: nat, j: nat)
    requires 0 < |r.slots| && r.num <= |r.slots| && i < r.num && j < r.num && i != j
    ensures Slot(r, i) != Slot(r, j)
  {
    var cap := |r.slots|;
    var base := r.head + (cap - r.num);
    var qi, qj := (base + i) / cap, (base + j) / cap;
    assert base + i == cap * qi + Slot(r, i);
    assert base + j == cap * qj + Slot(r, j);
    if Slot(r, i) == Slot(r, j) {
      assert cap * qi - cap * qj == i - j;
      assert cap * (qi - qj) == i - j;
      if qi - qj >= 1 { MulMono(cap, 1, qi - qj); } else if qi - qj <= -1 { MulMono(cap, qi - qj, -1); }
    }
  }

  /** Replaces the state at logical position i. */
  function Replace(r: Ring, i: nat, d: LagData): Ring
    requires RingValid(r) && i < r.num
  {
    r.(slots := r.slots[Slot(r, i) := Some(d)])
  }

  /** Two rings of the same shape map positions to the same slots. */
  lemma SameShapeSameSlot(r: Ring, r': Ring, j: nat)
    requires 0 < |r.slots| && r.num <= |r.slots|
    requires r'.head == r.head && r'.num == r.num && |r'.slots| == |r.slots|
    ensures Slot(r', j) == Slot(r, j)
  {
  }

  /** Replacing the state at logical position i changes that entry alone. */
  lemma ReplaceEntry(r: Ring, i: nat, d: LagData)
    requires RingValid(r) && i < r.num
    ensures RingValid(Replace(r, i, d)) && View(Replace(r, i, d)) == View(r)[i := d]
  {
    var r' := Replace(r, i, d);
    var cap := |r.slots|;
    var k := Slot(r, i);
    assert |r'.slots| == cap && r'.head == r.head && r'.num == r.num && r'.slots == r.slots[k := Some(d)];
    if r.num < cap {
      assert r.head == r.num % cap by { DivUnique(r.num, cap, 0, r.num); }
      SlotIsIndex(r, i);
    }
    forall j | 0 <= j < r.num
      ensures Slot(r', j) == Slot(r, j)
      ensures r'.slots[Slot(r', j)] == if j == i then Some(d) else r.slots[Slot(r, j)]
    {
      SameShapeSameSlot(r, r', j);
      if j != i { SlotInjective(r, i, j); }
    }
    assert RingValid(r');
    var expected := View(r)[i := d];
    assert forall j :: 0 <= j < r.num ==> View(r')[j] == expected[j];
  }

  // ---------------------------------------------------------------------
  // Adding and overwriting states
  // ---------------------------------------------------------------------

  /** The newest saved state. */
  function Latest(h: History): (d: LagData)
    requires ValidHistory(h) && h.ring.num > 0
    ensures d == Entries(h)[h.ring.num - 1]
  {
    GetAt(h.ring, h.ring.num - 1).value
  }

  /**
   * Whether a state stamped t is added: always into an empty history,
   * otherwise only when t is later than the newest entry's time and not
   * nearly equal to it.
   */
  predicate Admits(h: History, t: real)
    requires ValidHistory(h)
  {
    h.ring.num == 0 || !(Latest(h).simTimeMs > t || NearlyEqual(Latest(h).simTimeMs, t))
  }

  /** When the ring is full, an existing cutoff slides down with the entries; one that slides below 0 is gone. */
  function SlideCutoff(h: History): int
  {
    if h.ring.num == |h.ring.slots| && h.lastPossibleRewindIndex != INDEX_NONE then
      (if h.lastPossibleRewindIndex - 1 < 0 then INDEX_NONE else h.lastPossibleRewindIndex - 1)
    else h.lastPossibleRewindIndex
  }

  /** The entries after a state is written at the head of a history. */
  function Appended(h: History, d: LagData): seq<LagData>
    requires ValidHistory(h)
  {
    (if h.ring.num == |h.ring.slots| then Entries(h)[1..] else Entries(h)) + [d]
  }

  /**
   * Add: a state not later than the newest (or nearly at its time) is
   * ignored; otherwise it is written at the head. A state that stops
   * rewinding sets the cutoff to the count before the add, minus one.
   */
  function Add(h: History, s: LagData): (h': History)
    requires ValidHistory(h)
    ensures ValidHistory(h') && |h'.ring.slots| == |h.ring.slots| && h'.dataType == h.dataType
    ensures !Admits(h, s.simTimeMs) ==> h' == h
    ensures Admits(h, s.simTimeMs) ==>
      h'.ring.num == Min(h.ring.num + 1, |h.ring.slots|) && Entries(h') == Appended(h, s)
  {
    if !Admits(h, s.simTimeMs) then h
    else
      WriteAppends(h.ring, s);
      var c := if s.canRewindFurther then SlideCutoff(h)
               else if h.ring.num > 0 then h.ring.num - 1 else INDEX_NONE;
      History(Write(h.ring, s), h.dataType, c)
  }

  /**
   * Add with the cutoff for a stop state on the entry just before it,
   * whether or not the ring was full: the count after the add, minus two.
   */
  function AddCutBeforeStop(h: History, s: LagData): (h': History)
    requires ValidHistory(h)
    ensures ValidHistory(h') && |h'.ring.slots| == |h.ring.slots| && h'.dataType == h.dataType
    ensures !Admits(h, s.simTimeMs) ==> h' == h
    ensures Admits(h, s.simTimeMs) ==>
      h'.ring.num == Min(h.ring.num + 1, |h.ring.slots|) && Entries(h') == Appended(h, s)
  {
    if !Admits(h, s.simTimeMs) then h
    else
      WriteAppends(h.ring, s);
      var w := Write(h.ring, s);
      var c := if s.canRewindFurther then SlideCutoff(h)
               else if w.num >= 2 then w.num - 2 else INDEX_NONE;
      History(w, h.dataType, c)
  }

  /**
   * A state that lets rewinding go further leaves the cutoff on the same
   * saved state: it slides down with the entries when the oldest one is
   * overwritten, and is dropped when that oldest one was its entry.
   */
  lemma AddKeepsCutoffOnEntry(h: History, s: LagData)
    requires ValidHistory(h) && Admits(h, s.simTimeMs) && s.canRewindFurther
    requires h.lastPossibleRewindIndex != INDEX_NONE
    ensures var h' := Add(h, s); var c := h.lastPossibleRewindIndex; var full := h.ring.num == |h.ring.slots|;
      (full && c == 0 ==> h'.lastPossibleRewindIndex == INDEX_NONE) &&
      (full && c > 0 ==> h'.lastPossibleRewindIndex == c - 1 && Entries(h')[c - 1] == Entries(h)[c]) &&
      (!full ==> h'.lastPossibleRewindIndex == c && Entries(h')[c] == Entries(h)[c])
  {
  }

  /**
   * A stop state added by Add: with room left, the cutoff lands on
   * the newest entry before it; in a full ring it lands on the stop state
   * itself, since the count before the add already equals the capacity.
   */
  lemma AddStopCutoffAsWritten(h: History, s: LagData)
    requires ValidHistory(h) && Admits(h, s.simTimeMs) && !s.canRewindFurther
    ensures var h' := Add(h, s); var n := h.ring.num;
      (n == 0 ==> h'.lastPossibleRewindIndex == INDEX_NONE) &&
      (0 < n < |h.ring.slots| ==> Entries(h')[h'.lastPossibleRewindIndex] == Entries(h)[n - 1]) &&
      (n == |h.ring.slots| ==> Entries(h')[h'.lastPossibleRewindIndex] == s)
  {
  }

  /** With the cutoff placed before the stop state, it lands on the newest entry before it in every case. */
  lemma AddCutsBeforeStop(h: History, s: LagData)
    requires ValidHistory(h) && Admits(h, s.simTimeMs) && !s.canRewindFurther
    ensures var h' := AddCutBeforeStop(h, s); var n := h.ring.num;
      (h'.lastPossibleRewindIndex == INDEX_NONE <==> n == 0) &&
      (n > 0 ==> Entries(h')[h'.lastPossibleRewindIndex] == Entries(h)[n - 1] &&
                 h'.lastPossibleRewindIndex == h'.ring.num - 2)
  {
  }

  /**
   * GetLatestOrAddCopy: when t is not later than the newest entry (or
   * nearly at its time) the newest entry is copied and nothing is added;
   * otherwise one default state stamped t is written at the head and a
   * copy of it is returned. The cutoff only slides.
   */
  function GetLatestOrAddCopy(h: History, t: real): (res: (LagData, History))
    requires ValidHistory(h)
    ensures ValidHistory(res.1) && |res.1.ring.slots| == |h.ring.slots|
    ensures !Admits(h, t) ==> res.1 == h && res.0 == Entries(h)[h.ring.num - 1]
    ensures Admits(h, t) ==>
      res.0 == DefaultData(t) && res.1.ring.num == Min(h.ring.num + 1, |h.ring.slots|) &&
      Entries(res.1) == Appended(h, res.0) && res.1.lastPossibleRewindIndex == SlideCutoff(h)
  {
    if !Admits(h, t) then (Latest(h), h)
    else
      var d := DefaultData(t);
      WriteAppends(h.ring, d);
      (d, History(Write(h.ring, d), h.dataType, SlideCutoff(h)))
  }

  /**
   * WriteToLatestState: the newest entry is replaced only when the times
   * are nearly equal; if the newest entry (after that) stops rewinding,
   * the cutoff goes to the entry before it, or to 0 when it is alone.
   */
  function WriteToLatestState(h: History, s: LagData): (h': History)
    requires ValidHistory(h)
    ensures ValidHistory(h') && h'.ring.num == h.ring.num
    ensures h.ring.num == 0 ==> h' == h
  {
    if h.ring.num == 0 then h
    else
      var n := h.ring.num;
      var latest := Latest(h);
      var replace := NearlyEqual(latest.simTimeMs, s.simTimeMs);
      ReplaceEntry(h.ring, n - 1, s);
      var ring := if replace then Replace(h.ring, n - 1, s) else h.ring;
      var newest := if replace then s else latest;
      History(ring, h.dataType, if newest.canRewindFurther then h.lastPossibleRewindIndex else Max(n - 2, 0))
  }

  /**
   * What WriteToLatestState does to a non-empty history: only the newest
   * entry can change, and only to a state nearly at its time; a newest
   * entry that stops rewinding moves the cutoff to the position before it.
   */
  lemma WriteToLatestReplacesNewest(h: History, s: LagData)
    requires ValidHistory(h) && h.ring.num > 0
    ensures var h' := WriteToLatestState(h, s); var n := h.ring.num;
      Entries(h') == (if NearlyEqual(Latest(h).simTimeMs, s.simTimeMs) then Entries(h)[n - 1 := s] else Entries(h)) &&
      h'.lastPossibleRewindIndex == (if Entries(h')[n - 1].canRewindFurther then h.lastPossibleRewindIndex else Max(n - 2, 0))
  {
    var n := h.ring.num;
    var h' := WriteToLatestState(h, s);
    ReplaceEntry(h.ring, n - 1, s);
    if NearlyEqual(Latest(h).simTimeMs, s.simTimeMs) {
      assert h'.ring == Replace(h.ring, n - 1, s);
      assert Entries(h') == Entries(h)[n - 1 := s];
      assert Entries(h')[n - 1] == s;
    } else {
      assert h'.ring == h.ring;
      assert Entries(h')[n - 1] == Latest(h);
    }
  }

  // ---------------------------------------------------------------------
  // Time order
  // ---------------------------------------------------------------------

  /** Times that strictly increase from the first state to the last. */
  predicate Increasing(es: seq<LagData>)
  {
    forall i, j :: 0 <= i < j < |es| ==> es[i].simTimeMs < es[j].simTimeMs
  }

  /** Saved times strictly increase from the oldest entry to the newest. */
  predicate TimesIncrease(h: History)
    requires ValidHistory(h)
  {
    Increasing(Entries(h))
  }

  /** Appending a time later than the newest keeps the times increasing, whether or not the oldest drops out. */
  lemma AppendKeepsIncreasing(es: seq<LagData>, drop: bool, d: LagData)
    requires Increasing(es)
    requires |es| > 0 ==> es[|es| - 1].simTimeMs < d.simTimeMs
    ensures Increasing((if drop && |es| > 0 then es[1..] else es) + [d])
  {
  }

  /** Add keeps the saved times strictly increasing. */
  lemma AddKeepsTimesIncreasing(h: History, s: LagData)
    requires ValidHistory(h) && TimesIncrease(h)
    ensures TimesIncrease(Add(h, s))
  {
    if Admits(h, s.simTimeMs) {
      AppendKeepsIncreasing(Entries(h), h.ring.num == |h.ring.slots|, s);
    }
  }

  /** GetLatestOrAddCopy keeps the saved times strictly increasing. */
  lemma GetLatestOrAddCopyKeepsTimesIncreasing(h: History, t: real)
    requires ValidHistory(h) && TimesIncrease(h)
    ensures TimesIncrease(GetLatestOrAddCopy(h, t).1)
  {
    if Admits(h, t) {
      AppendKeepsIncreasing(Entries(h), h.ring.num == |h.ring.slots|, DefaultData(t));
    }
  }

  /** WriteToLatestState keeps the times increasing when the written time is not before the newest one. */
  lemma WriteToLatestKeepsTimesIncreasing(h: History, s: LagData)
    requires ValidHistory(h) && TimesIncrease(h)
    requires h.ring.num > 0 ==> Latest(h).simTimeMs <= s.simTimeMs
    ensures TimesIncrease(WriteToLatestState(h, s))
  {
    if h.ring.num > 0 {
      WriteToLatestReplacesNewest(h, s);
    }
  }

  // ---------------------------------------------------------------------
  // State at a past time
  // ---------------------------------------------------------------------

  /**
   * What GetStateAtTime returns: nothing for an empty history, a copy of
   * one entry, or a blend of two neighbouring entries by alpha, stamped
   * with the query time.
   */
  datatype Lookup = NoState | EntryAt(index: nat) | Between(prev: nat, next: nat, alpha: real)

  /** Below the cutoff entry's time, the lookup stops at the cutoff entry. */
  predicate CutoffHit(es: seq<LagData>, cutoff: int, t: real)
    requires cutoff == INDEX_NONE || 0 <= cutoff < |es|
  {
    cutoff != INDEX_NONE && t < es[cutoff].simTimeMs
  }

  /**
   * The lookup over the saved states from oldest to newest: the cutoff
   * check first; then within 1 ms of the newest or oldest time, that
   * entry; otherwise a lower-bound binary search over positions
   * 1 .. count - 1 for the first entry not before the (clamped) time,
   * blended with the one before it. The blend weight is 0 when the two
   * times are nearly equal.
   */
  method LookupEntries(es: seq<LagData>, cutoff: int, t: real) returns (r: Lookup)
    requires cutoff == INDEX_NONE || 0 <= cutoff < |es|
    ensures r == NoState <==> |es| == 0
    ensures r.EntryAt? ==> r.index < |es|
    ensures |es| > 0 && CutoffHit(es, cutoff, t) ==> r == EntryAt(cutoff)
    ensures |es| > 0 && !CutoffHit(es, cutoff, t) && t >= es[|es| - 1].simTimeMs - 1.0 ==> r == EntryAt(|es| - 1)
    ensures (|es| > 0 && !CutoffHit(es, cutoff, t) && t < es[|es| - 1].simTimeMs - 1.0 &&
      t <= es[0].simTimeMs + 1.0) ==> r == EntryAt(0)
    ensures r.Between? ==>
      1 <= r.next < |es| && r.prev == r.next - 1 && es[0].simTimeMs + 1.0 < t < es[|es| - 1].simTimeMs - 1.0
    ensures r.Between? && Increasing(es) ==> es[r.prev].simTimeMs < t <= es[r.next].simTimeMs
    ensures r.Between? ==> var diff := es[r.next].simTimeMs - es[r.prev].simTimeMs;
      (RealAbs(diff) <= SMALL_NUMBER ==> r.alpha == 0.0) &&
      (RealAbs(diff) > SMALL_NUMBER ==> es[r.prev].simTimeMs + r.alpha * diff == t)
  {
    if |es| == 0 {
      return NoState;
    }
    var last: nat := |es| - 1;
    var minTime := es[0].simTimeMs;
    var maxTime := es[last].simTimeMs;
    if cutoff != INDEX_NONE && t < es[cutoff].simTimeMs {
      return EntryAt(cutoff);
    }
    if t >= maxTime - 1.0 {
      return EntryAt(last);
    }
    if t <= minTime + 1.0 {
      return EntryAt(0);
    }
    var clamped := RealClamp(t, minTime, maxTime);
    // Fewer than two samples, or equal end times, cannot reach here.
    assert last >= 1 && minTime < maxTime && clamped == t;
    var next: nat := 1;
    var count: int := last - next;
    while count > 0
      invariant 1 <= next && 0 <= count && next + count <= last
      invariant Increasing(es) ==> forall j :: 1 <= j < next ==> es[j].simTimeMs < clamped
      invariant Increasing(es) ==> forall j :: next + count <= j <= last ==> clamped <= es[j].simTimeMs
      decreases count
    {
      var step := count / 2;
      var middle := next + step;
      if clamped > es[middle].simTimeMs {
        next := middle + 1;
        count := count - (step + 1);
      } else {
        count := step;
      }
    }
    var prev := next - 1;
    var diff := es[next].simTimeMs - es[prev].simTimeMs;
    var alpha := if !(RealAbs(diff) <= SMALL_NUMBER) then (clamped - es[prev].simTimeMs) / diff else 0.0;
    return Between(prev, next, alpha);
  }

  /** GetStateAtTime: the lookup over the history's entries and cutoff. */
  method GetStateAtTime(h: History, t: real) returns (r: Lookup)
    requires ValidHistory(h)
    ensures r == NoState <==> h.ring.num == 0
    ensures h.ring.num > 0 && CutoffHit(Entries(h), h.lastPossibleRewindIndex, t) ==> r == EntryAt(h.lastPossibleRewindIndex)
    ensures r.Between? ==> 1 <= r.next < h.ring.num && r.prev == r.next - 1
    ensures r.Between? && TimesIncrease(h) ==> Entries(h)[r.prev].simTimeMs < t <= Entries(h)[r.next].simTimeMs
  {
    r := LookupEntries(Entries(h), h.lastPossibleRewindIndex, t);
  }

  /** A squared distance beyond which a blend snaps to the later location. */
  const TELEPORT_THRESHOLD: real := 250000.0

  function DistSquared(a: Vec3, b: Vec3): (r: real)
    ensures r >= 0.0
  {
    var dx := b.x - a.x;
    var dy := b.y - a.y;
    var dz := b.z - a.z;
    SquareNonNeg(dx);
    SquareNonNeg(dy);
    SquareNonNeg(dz);
    dx * dx + dy * dy + dz * dz
  }

  lemma SquareNonNeg(d: real)
    ensures d * d >= 0.0
  {
    if d < 0.0 {
      assert d * d == (-d) * (-d);
    }
  }

  function LerpVec(a: Vec3, b: Vec3, alpha: real): Vec3
  {
    Vec3(a.x + alpha * (b.x - a.x), a.y + alpha * (b.y - a.y), a.z + alpha * (b.z - a.z))
  }

  /**
   * Lerp: blends the receiving state between two saved ones. The location
   * snaps to the later one across a teleport, the extent blends, and the
   * rewind flag is taken from whichever side the weight favours. The
   * rotation's spherical blend is supplied by the caller; the receiver's
   * own time is not touched.
   */
  function Lerp(self: LagData, from: LagData, to: LagData, alpha: real, blendedRotation: Quat): (r: LagData)
  {
    var location := if DistSquared(from.location, to.location) > TELEPORT_THRESHOLD then to.location
      else LerpVec(from.location, to.location, alpha);
    LagData(self.simTimeMs, location, blendedRotation,
      LerpVec(from.collisionExtent, to.collisionExtent, alpha),
      if alpha > 0.5 then to.canRewindFurther else from.canRewindFurther)
  }

  /** The blend's ends: weight 0 gives the earlier state, weight 1 the later one (time and rotation aside). */
  lemma LerpEnds(self: LagData, from: LagData, to: LagData, q: Quat)
    ensures var r := Lerp(self, from, to, 0.0, q);
      r.collisionExtent == from.collisionExtent && r.canRewindFurther == from.canRewindFurther &&
      (DistSquared(from.location, to.location) <= TELEPORT_THRESHOLD ==> r.location == from.location)
    ensures var r := Lerp(self, from, to, 1.0, q);
      r.location == to.location && r.collisionExtent == to.collisionExtent && r.canRewindFurther == to.canRewindFurther
    ensures Lerp(self, from, to, 0.0, q).simTimeMs == self.simTimeMs
  {
  }

  /** Across a teleport the blended location is the later one, whatever the weight. */
  lemma LerpSnapsAcrossTeleport(self: LagData, from: LagData, to: LagData, alpha: real, q: Quat)
    requires DistSquared(from.location, to.location) > TELEPORT_THRESHOLD
    ensures Lerp(self, from, to, alpha, q).location == to.location
  {
  }

  /** Blending a state with itself leaves its location, extent and flag as they were. */
  lemma LerpOfSameState(self: LagData, d: LagData, alpha: real, q: Quat)
    ensures var r := Lerp(self, d, d, alpha, q);
      r.location == d.location && r.collisionExtent == d.collisionExtent && r.canRewindFurther == d.canRewindFurther
  {
  }
}
