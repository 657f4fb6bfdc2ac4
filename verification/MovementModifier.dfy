/**
 * Movement modifiers: typed, timed effects identified by a uint16 handle,
 * and the group that queues, activates, cancels and ends them. The start
 * and end callbacks are left out; their effect on the bookkeeping is the
 * start time stamped on activation and the list of ended modifiers.
 */
module MovementModifier {
  import opened Common
  import opened MoverTypes
  import MoverDataCollection
  import LG = LayeredMoveGroup

  type StructType = MoverDataCollection.StructType

  // ---------------------------------------------------------------------
  // Handles
  // ---------------------------------------------------------------------

  /** MODIFIER_HANDLE_TYPE is uint16. */
  type Handle = h: int | 0 <= h < 0x1_0000

  const MODIFIER_HANDLE_MAX: Handle := 0xFFFF
  const INVALID_HANDLE: Handle := 0

  predicate IsValid(h: Handle)
  {
    h != INVALID_HANDLE
  }

  /**
   * FJoltMovementModifierHandle::GenerateHandle: the static generator is
   * pre-incremented with uint16 wrap-around, and once more when it wraps
   * to the invalid handle 0. Returns the handle and the new generator.
   */
  function GenerateHandle(gen: Handle): (r: (Handle, Handle))
    ensures IsValid(r.0) && r.1 == r.0
    ensures gen < MODIFIER_HANDLE_MAX ==> r.0 == gen + 1
    ensures gen == MODIFIER_HANDLE_MAX ==> r.0 == 1
  {
    var local := (gen + 1) % 0x1_0000;
    if local == 0 then (local + 1, local + 1) else (local, local)
  }

  /** The handles of `n` successive GenerateHandle calls from generator `gen`. */
  function GenerateHandles(gen: Handle, n: nat): (r: seq<Handle>)
    ensures |r| == n
    ensures forall k :: 0 <= k < n ==> IsValid(r[k])
    decreases n
  {
    if n == 0 then []
    else
      var (h, gen') := GenerateHandle(gen);
      [h] + GenerateHandles(gen', n - 1)
  }

  /** The k-th generated handle, in closed form: the generator cycles through 1..65535. */
  lemma {:induction false} GeneratedHandleIs(gen: Handle, n: nat, k: nat)
    requires k < n
    ensures GenerateHandles(gen, n)[k] == (gen + k) % MODIFIER_HANDLE_MAX + 1
    decreases n
  {
    var (h, gen') := GenerateHandle(gen);
    if k > 0 {
      GeneratedHandleIs(gen', n - 1, k - 1);
      assert GenerateHandles(gen, n)[k] == GenerateHandles(gen', n - 1)[k - 1];
      assert gen' == gen % MODIFIER_HANDLE_MAX + 1;
      ModShift(gen, k - 1);
    }
  }

  lemma ModShift(g: nat, k: nat)
    ensures (g % 0xFFFF + 1 + k) % 0xFFFF == (g + k + 1) % 0xFFFF
  {
    var q := g / 0xFFFF;
    assert g == q * 0xFFFF + g % 0xFFFF;
    assert g + k + 1 == (g % 0xFFFF + 1 + k) + q * 0xFFFF;
    ModAddMultiple(g % 0xFFFF + 1 + k, q);
  }

  lemma {:induction false} ModAddMultiple(x: nat, q: nat)
    ensures (x + q * 0xFFFF) % 0xFFFF == x % 0xFFFF
    decreases q
  {
    if q > 0 {
      ModAddMultiple(x, q - 1);
      assert x + q * 0xFFFF == (x + (q - 1) * 0xFFFF) + 0xFFFF;
    }
  }

  /** Two numbers less than a full cycle apart lie in different residues. */
  lemma ModDistinct(a: nat, d: nat)
    requires 0 < d < 0xFFFF
    ensures a % 0xFFFF != (a + d) % 0xFFFF
  {
    var r := a % 0xFFFF;
    var q := a / 0xFFFF;
    assert a + d == (r + d) + q * 0xFFFF;
    ModAddMultiple(r + d, q);
  }

  /** Any 65535 successive handles are pairwise distinct: a handle is reused only after a full cycle. */
  lemma HandlesDistinctWithinCycle(gen: Handle, n: nat, i: nat, j: nat)
    requires n <= MODIFIER_HANDLE_MAX && i < j < n
    ensures GenerateHandles(gen, n)[i] != GenerateHandles(gen, n)[j]
  {
    GeneratedHandleIs(gen, n, i);
    GeneratedHandleIs(gen, n, j);
    ModDistinct(gen + i, j - i);
  }

  // ---------------------------------------------------------------------
  // One modifier (FJoltMovementModifierBase)
  // ---------------------------------------------------------------------

  /** MovementModifier_InvalidTime. */
  const INVALID_TIME: real := -BIG_NUMBER

  datatype Modifier = Modifier(struct: StructType, durationMs: real, startSimTimeMs: real, handle: Handle)

  /** A freshly constructed modifier of type `t`: no duration, not started, no handle. */
  function NewModifier(t: StructType): (m: Modifier)
    ensures m.struct == t && !IsStarted(m) && !IsValid(m.handle) && m.durationMs < 0.0
  {
    Modifier(t, -1.0, INVALID_TIME, INVALID_HANDLE)
  }

  predicate IsStarted(m: Modifier)
  {
    m.startSimTimeMs >= 0.0
  }

  /** IsFinished: exactly the rule the older layered moves use for their start time and duration. */
  function IsFinished(m: Modifier, currentSimTimeMs: real): (r: bool)
    ensures r == LG.IsFinished(LG.NewMove(m.struct).(durationMs := m.durationMs, startSimTimeMs := m.startSimTimeMs), currentSimTimeMs)
  {
    var started := m.startSimTimeMs >= 0.0;
    var expired := started && m.durationMs > 0.0 && m.startSimTimeMs + m.durationMs <= currentSimTimeMs;
    var tickedOnce := started && m.durationMs == 0.0;
    expired || tickedOnce
  }

  /** StartModifier: the start time is stamped, and from then on the modifier finishes once its duration has elapsed. */
  function StartModifier(m: Modifier, step: TimeStep): (r: Modifier)
    ensures r == m.(startSimTimeMs := r.startSimTimeMs) && r.startSimTimeMs == step.baseSimTimeMs
    ensures step.baseSimTimeMs >= 0.0 ==>
      forall t :: IsFinished(r, t) <==> m.durationMs == 0.0 || (m.durationMs > 0.0 && t >= step.baseSimTimeMs + m.durationMs)
  {
    m.(startSimTimeMs := step.baseSimTimeMs)
  }

  /** Matches: the other modifier exists and has the same script struct. */
  function Matches(m: Modifier, other: Option<Modifier>): (r: bool)
    ensures r <==> other.Some? && other.value.struct == m.struct
  {
    match other
    case None => false
    case Some(o) => m.struct == o.struct
  }

  /** OverwriteHandleIfInvalid: only an invalid handle is replaced, and only by a valid one. */
  function OverwriteHandleIfInvalid(m: Modifier, valid: Handle): (r: Modifier)
    ensures r == m.(handle := r.handle)
    ensures IsValid(m.handle) ==> r.handle == m.handle
    ensures !IsValid(m.handle) ==> r.handle == valid
    ensures IsValid(r.handle) <==> IsValid(m.handle) || IsValid(valid)
  {
    if IsValid(valid) && !IsValid(m.handle) then m.(handle := valid) else m
  }

  // ---------------------------------------------------------------------
  // The group (FJoltMovementModifierGroup)
  // ---------------------------------------------------------------------

  datatype Group = Group(active: seq<Option<Modifier>>, queued: seq<Option<Modifier>>)

  const EMPTY_GROUP: Group := Group([], [])

  predicate NoNulls(s: seq<Option<Modifier>>)
  {
    forall i :: 0 <= i < |s| ==> s[i].Some?
  }

  /** QueueMovementModifier: only a valid modifier is queued. */
  function QueueMovementModifier(g: Group, m: Option<Modifier>): (r: Group)
    ensures m.Some? ==> r == g.(queued := g.queued + [m])
    ensures m.None? ==> r == g
  {
    if m.Some? then g.(queued := g.queued + [m]) else g
  }

  /** The active array after a cancellation: each modifier the predicate picks gets a zero duration. */
  function ZeroDurations(s: seq<Option<Modifier>>, pick: Modifier -> bool): (r: seq<Option<Modifier>>)
    ensures |r| == |s|
    ensures forall i :: 0 <= i < |s| ==> (r[i].Some? <==> s[i].Some?)
    ensures forall i :: 0 <= i < |s| && s[i].Some? && pick(s[i].value) ==> r[i] == Some(s[i].value.(durationMs := 0.0))
    ensures forall i :: 0 <= i < |s| && s[i].Some? && !pick(s[i].value) ==> r[i] == s[i]
  {
    if |s| == 0 then []
    else
      assert forall i :: 1 <= i < |s| ==> s[1..][i - 1] == s[i];
      var head := if s[0].Some? && pick(s[0].value) then Some(s[0].value.(durationMs := 0.0)) else s[0];
      [head] + ZeroDurations(s[1..], pick)
  }

  /**
   * CancelModifierFromHandle: active modifiers with the handle get a zero
   * duration (every active slot is dereferenced); queued modifiers with the
   * handle, and null queued slots, are removed.
   */
  function CancelModifierFromHandle(g: Group, h: Handle): (r: Group)
    requires NoNulls(g.active)
    ensures r.active == ZeroDurations(g.active, (m: Modifier) => m.handle == h)
    ensures forall i :: 0 <= i < |r.queued| ==> r.queued[i].Some? && r.queued[i].value.handle != h && r.queued[i] in g.queued
    ensures forall i :: 0 <= i < |g.queued| && g.queued[i].Some? && g.queued[i].value.handle != h ==> g.queued[i] in r.queued
  {
    Group(ZeroDurations(g.active, (m: Modifier) => m.handle == h), Filter(g.queued, (o: Option<Modifier>) => o.Some? && o.value.handle != h))
  }

  /** CancelModifiersByTag: the same with the modifier's own tag query; null active slots are skipped. */
  function CancelModifiersByTag(g: Group, tag: string, exact: bool, hasTag: (Modifier, string, bool) -> bool): (r: Group)
    ensures r.active == ZeroDurations(g.active, m => hasTag(m, tag, exact))
    ensures forall i :: 0 <= i < |r.queued| ==> r.queued[i].Some? && !hasTag(r.queued[i].value, tag, exact) && r.queued[i] in g.queued
    ensures forall i :: 0 <= i < |g.queued| && g.queued[i].Some? && !hasTag(g.queued[i].value, tag, exact) ==> g.queued[i] in r.queued
  {
    Group(ZeroDurations(g.active, m => hasTag(m, tag, exact)), Filter(g.queued, (o: Option<Modifier>) => o.Some? && !hasTag(o.value, tag, exact)))
  }

  /** The script structs present in an array. */
  function TypesOf(s: seq<Option<Modifier>>): (r: set<StructType>)
    ensures forall i :: 0 <= i < |s| && s[i].Some? ==> s[i].value.struct in r
    ensures forall t :: t in r ==> exists i :: 0 <= i < |s| && s[i].Some? && s[i].value.struct == t
  {
    set i | 0 <= i < |s| && s[i].Some? :: s[i].value.struct
  }

  /** No two modifiers of an array share a script struct. */
  predicate UniqueTypes(s: seq<Option<Modifier>>)
  {
    forall i, j :: 0 <= i < j < |s| && s[i].Some? && s[j].Some? ==> s[i].value.struct != s[j].value.struct
  }

  /** The first active slot the queued modifier matches, if any. */
  function FirstMatch(a: seq<Option<Modifier>>, q: Modifier): (r: Option<nat>)
    ensures r.Some? ==> r.value < |a| && Matches(q, a[r.value]) && forall j :: 0 <= j < r.value ==> !Matches(q, a[j])
    ensures r.None? ==> forall j :: 0 <= j < |a| ==> !Matches(q, a[j])
  {
    if |a| == 0 then None
    else if Matches(q, a[0]) then Some(0)
    else
      match FirstMatch(a[1..], q)
      case None => None
      case Some(j) => Some(j + 1)
  }

  /**
   * Activating one queued modifier: if an active one of its type exists,
   * the queued one is dropped and only donates its handle to it; otherwise
   * it is started and appended.
   */
  function ActivateOne(a: seq<Option<Modifier>>, q: Modifier, step: TimeStep): (r: seq<Option<Modifier>>)
    ensures FirstMatch(a, q).Some? ==> |r| == |a|
    ensures FirstMatch(a, q).None? ==> r == a + [Some(StartModifier(q, step))]
    ensures forall j :: 0 <= j < |a| ==> (r[j].Some? <==> a[j].Some?)
    ensures forall j :: 0 <= j < |a| && a[j].Some? ==> r[j].value == a[j].value.(handle := r[j].value.handle)
  {
    match FirstMatch(a, q)
    case Some(i) => a[i := Some(OverwriteHandleIfInvalid(a[i].value, q.handle))]
    case None => a + [Some(StartModifier(q, step))]
  }

  /** One activation adds the queued modifier's type and no other. */
  lemma ActivateOneTypes(a: seq<Option<Modifier>>, q: Modifier, step: TimeStep)
    ensures TypesOf(ActivateOne(a, q, step)) == TypesOf(a) + {q.struct}
  {
    var r := ActivateOne(a, q, step);
    if FirstMatch(a, q).None? {
      assert r[|a|].value.struct == q.struct;
    }
  }

  /** One activation never duplicates a type. */
  lemma ActivateOneUnique(a: seq<Option<Modifier>>, q: Modifier, step: TimeStep)
    requires UniqueTypes(a)
    ensures UniqueTypes(ActivateOne(a, q, step))
  {
    var r := ActivateOne(a, q, step);
    if FirstMatch(a, q).None? {
      assert r[|a|].value.struct == q.struct;
    }
  }

  /** The queued modifiers activated one after the other, each seeing the ones before it. */
  function ActivateAll(a: seq<Option<Modifier>>, queued: seq<Modifier>, step: TimeStep): (r: seq<Option<Modifier>>)
    ensures NoNulls(a) ==> NoNulls(r)
    decreases |queued|
  {
    if |queued| == 0 then a else ActivateAll(ActivateOne(a, queued[0], step), queued[1..], step)
  }

  /** The queued modifiers, with the sequence of their types. */
  function Values(s: seq<Option<Modifier>>): (r: seq<Modifier>)
    requires NoNulls(s)
    ensures |r| == |s| && forall i :: 0 <= i < |s| ==> r[i] == s[i].value
  {
    if |s| == 0 then [] else [s[0].value] + Values(s[1..])
  }

  function StructsOf(qs: seq<Modifier>): (r: set<StructType>)
    ensures forall t :: t in r <==> exists i :: 0 <= i < |qs| && qs[i].struct == t
  {
    set i | 0 <= i < |qs| :: qs[i].struct
  }

  lemma StructsOfCons(queued: seq<Modifier>)
    requires |queued| > 0
    ensures StructsOf(queued) == {queued[0].struct} + StructsOf(queued[1..])
  {
    forall t | t in StructsOf(queued) ensures t in {queued[0].struct} + StructsOf(queued[1..]) {
      var i :| 0 <= i < |queued| && queued[i].struct == t;
      if i > 0 { assert queued[1..][i - 1] == queued[i]; }
    }
    forall t | t in StructsOf(queued[1..]) ensures t in StructsOf(queued) {
      var i :| 0 <= i < |queued[1..]| && queued[1..][i].struct == t;
      assert queued[i + 1].struct == t;
    }
  }

  /** After activation the active types are the old ones plus every queued type. */
  lemma {:induction false} ActivateAllTypes(a: seq<Option<Modifier>>, queued: seq<Modifier>, step: TimeStep)
    ensures TypesOf(ActivateAll(a, queued, step)) == TypesOf(a) + StructsOf(queued)
    decreases |queued|
  {
    if |queued| > 0 {
      ActivateOneTypes(a, queued[0], step);
      ActivateAllTypes(ActivateOne(a, queued[0], step), queued[1..], step);
      StructsOfCons(queued);
    }
  }

  /** Activation never puts a second modifier of one type into the active array. */
  lemma {:induction false} ActivateAllUnique(a: seq<Option<Modifier>>, queued: seq<Modifier>, step: TimeStep)
    requires UniqueTypes(a)
    ensures UniqueTypes(ActivateAll(a, queued, step))
    decreases |queued|
  {
    if |queued| > 0 {
      ActivateOneUnique(a, queued[0], step);
      ActivateAllUnique(ActivateOne(a, queued[0], step), queued[1..], step);
    }
  }

  /**
   * Activation keeps the active modifiers in place, changing at most their
   * handles, and appends at most one modifier per queued one.
   */
  lemma {:induction false} ActivateAllKeeps(a: seq<Option<Modifier>>, queued: seq<Modifier>, step: TimeStep)
    ensures |a| <= |ActivateAll(a, queued, step)| <= |a| + |queued|
    ensures forall i :: 0 <= i < |a| && a[i].Some? ==>
      ActivateAll(a, queued, step)[i].Some? && ActivateAll(a, queued, step)[i].value == a[i].value.(handle := ActivateAll(a, queued, step)[i].value.handle)
    decreases |queued|
  {
    if |queued| > 0 {
      var a' := ActivateOne(a, queued[0], step);
      ActivateAllKeeps(a', queued[1..], step);
      var r := ActivateAll(a, queued, step);
      assert r == ActivateAll(a', queued[1..], step);
      forall i | 0 <= i < |a| && a[i].Some?
        ensures r[i].Some? && r[i].value == a[i].value.(handle := r[i].value.handle)
      {
        assert a'[i].Some? && a'[i].value == a[i].value.(handle := a'[i].value.handle);
      }
    }
  }

  /** A slot that survives the finished pass: a valid modifier that has not finished. */
  predicate Survives(nowMs: real, o: Option<Modifier>)
  {
    o.Some? && !IsFinished(o.value, nowMs)
  }

  /**
   * FlushModifierArrays: null and finished active modifiers are removed
   * (the finished ones ended), then every queued modifier is activated
   * unless one of its type is already active, and the queue is emptied.
   * Every queued slot is dereferenced. Returns the group and the ended modifiers.
   */
  function FlushModifierArrays(g: Group, step: TimeStep): (r: (Group, seq<Modifier>))
    requires NoNulls(g.queued)
    ensures r.0.queued == [] && NoNulls(r.0.active)
    ensures forall i :: 0 <= i < |r.1| ==> Some(r.1[i]) in g.active && IsFinished(r.1[i], step.baseSimTimeMs)
    ensures forall i :: 0 <= i < |g.active| && g.active[i].Some? && IsFinished(g.active[i].value, step.baseSimTimeMs) ==> g.active[i].value in r.1
  {
    var kept := Filter(g.active, o => Survives(step.baseSimTimeMs, o));
    var ended := LG.Removed(g.active, m => IsFinished(m, step.baseSimTimeMs));
    (Group(ActivateAll(kept, Values(g.queued), step), []), ended)
  }

  /**
   * What a flush leaves active: the surviving modifiers first (handles
   * possibly donated), and beyond them exactly the types that were active
   * or queued; a group without duplicate types keeps none.
   */
  lemma FlushActiveMeans(g: Group, step: TimeStep)
    requires NoNulls(g.queued)
    ensures var a := FlushModifierArrays(g, step).0.active;
      var kept := Filter(g.active, o => Survives(step.baseSimTimeMs, o));
      && TypesOf(a) == TypesOf(kept) + StructsOf(Values(g.queued))
      && |kept| <= |a|
      && (forall i :: 0 <= i < |kept| ==> Survives(step.baseSimTimeMs, kept[i]) && a[i].Some? && a[i].value == kept[i].value.(handle := a[i].value.handle))
      && (UniqueTypes(g.active) ==> UniqueTypes(a))
  {
    var kept := Filter(g.active, o => Survives(step.baseSimTimeMs, o));
    ActivateAllTypes(kept, Values(g.queued), step);
    ActivateAllKeeps(kept, Values(g.queued), step);
    if UniqueTypes(g.active) {
      FilterKeepsUnique(g.active, o => Survives(step.baseSimTimeMs, o));
      ActivateAllUnique(kept, Values(g.queued), step);
    }
  }

  lemma UniqueCons(x: Option<Modifier>, t: seq<Option<Modifier>>)
    requires UniqueTypes(t)
    requires forall j :: 0 <= j < |t| && x.Some? && t[j].Some? ==> x.value.struct != t[j].value.struct
    ensures UniqueTypes([x] + t)
  {
    forall i, j | 0 <= i < j < |[x] + t| && ([x] + t)[i].Some? && ([x] + t)[j].Some?
      ensures ([x] + t)[i].value.struct != ([x] + t)[j].value.struct
    {
      assert ([x] + t)[j] == t[j - 1];
      if i > 0 {
        assert ([x] + t)[i] == t[i - 1];
      }
    }
  }

  /** Filtering an array without duplicate types leaves none. */
  lemma {:induction false} FilterKeepsUnique(s: seq<Option<Modifier>>, keep: Option<Modifier> -> bool)
    requires UniqueTypes(s)
    ensures UniqueTypes(Filter(s, keep))
    decreases |s|
  {
    if |s| > 0 {
      assert UniqueTypes(s[1..]) by {
        forall i, j | 0 <= i < j < |s[1..]| && s[1..][i].Some? && s[1..][j].Some?
          ensures s[1..][i].value.struct != s[1..][j].value.struct
        {
          assert s[1..][i] == s[i + 1] && s[1..][j] == s[j + 1];
        }
      }
      FilterKeepsUnique(s[1..], keep);
      var t := Filter(s[1..], keep);
      if keep(s[0]) {
        assert Filter(s, keep) == [s[0]] + t;
        forall j | 0 <= j < |t| && s[0].Some? && t[j].Some?
          ensures s[0].value.struct != t[j].value.struct
        {
          var k :| 0 <= k < |s[1..]| && s[1..][k] == t[j];
          assert s[k + 1] == t[j];
        }
        UniqueCons(s[0], t);
      } else {
        assert Filter(s, keep) == t;
      }
    }
  }

  /** A modifier cancelled by handle after it started is ended by the next flush. */
  lemma CancelledModifierEnds(g: Group, h: Handle, step: TimeStep, i: nat)
    requires NoNulls(g.active) && NoNulls(g.queued)
    requires i < |g.active| && g.active[i].value.handle == h && IsStarted(g.active[i].value)
    ensures var c := CancelModifierFromHandle(g, h);
      NoNulls(c.queued) && g.active[i].value.(durationMs := 0.0) in FlushModifierArrays(c, step).1
  {
    var c := CancelModifierFromHandle(g, h);
    assert c.active[i] == Some(g.active[i].value.(durationMs := 0.0));
  }

  // ---------------------------------------------------------------------
  // Comparison
  // ---------------------------------------------------------------------

  predicate SameValidity(a: seq<Option<Modifier>>, b: seq<Option<Modifier>>)
  {
    |a| == |b| && forall i :: 0 <= i < |a| ==> (a[i].Some? <==> b[i].Some?)
  }

  /** operator==: the same counts and the same null slots; the modifiers themselves are not compared. */
  function Equal(g: Group, h: Group): (r: bool)
    ensures r <==> SameValidity(g.active, h.active) && SameValidity(g.queued, h.queued)
  {
    && |g.active| == |h.active| && |g.queued| == |h.queued|
    && (forall i :: 0 <= i < |g.active| ==> g.active[i].Some? == h.active[i].Some?)
    && (forall i :: 0 <= i < |g.queued| ==> g.queued[i].Some? == h.queued[i].Some?)
  }

  predicate SameTypes(a: seq<Option<Modifier>>, b: seq<Option<Modifier>>)
    requires NoNulls(a) && NoNulls(b)
  {
    |a| == |b| && forall i :: 0 <= i < |a| ==> a[i].value.struct == b[i].value.struct
  }

  /** HasSameContents: the same counts and the same script struct in every slot. */
  function HasSameContents(g: Group, h: Group): (r: bool)
    requires NoNulls(g.active) && NoNulls(g.queued) && NoNulls(h.active) && NoNulls(h.queued)
    ensures r <==> SameTypes(g.active, h.active) && SameTypes(g.queued, h.queued)
    ensures r ==> Equal(g, h)
  {
    if |g.active| != |h.active| || |g.queued| != |h.queued| then false
    else
      && (forall i :: 0 <= i < |g.active| ==> g.active[i].value.struct == h.active[i].value.struct)
      && (forall i :: 0 <= i < |g.queued| ==> g.queued[i].value.struct == h.queued[i].value.struct)
  }

  /** ShouldReconcile: the counts differ, or some slot holds a different script struct. */
  function ShouldReconcile(g: Group, h: Group): (r: bool)
    requires NoNulls(g.active) && NoNulls(g.queued) && NoNulls(h.active) && NoNulls(h.queued)
    ensures r <==> !HasSameContents(g, h)
    ensures r <==>
      (|g.active| != |h.active| || |g.queued| != |h.queued|
       || (exists i :: 0 <= i < |g.active| && g.active[i].value.struct != h.active[i].value.struct)
       || (exists i :: 0 <= i < |g.queued| && g.queued[i].value.struct != h.queued[i].value.struct))
  {
    if |g.active| != |h.active| || |g.queued| != |h.queued| then true
    else
      || (exists i :: 0 <= i < |g.active| && g.active[i].value.struct != h.active[i].value.struct)
      || (exists i :: 0 <= i < |g.queued| && g.queued[i].value.struct != h.queued[i].value.struct)
  }

  /** Reset: both arrays emptied. */
  function Reset(g: Group): (r: Group)
    ensures r == EMPTY_GROUP
  {
    g.(active := [], queued := [])
  }

  // ---------------------------------------------------------------------
  // Copying (operator=)
  // ---------------------------------------------------------------------

  /**
   * CopyModifierArray: with copy-in-place enabled and equal sizes, each slot
   * is copied into a destination modifier of the same type or replaced by a
   * clone; the first null source slot abandons that for a full copy, which
   * clones the non-null source slots only.
   */
  function CopyModifierArray(dest: seq<Option<Modifier>>, src: seq<Option<Modifier>>, copyInPlaceEnabled: bool): (r: seq<Option<Modifier>>)
    ensures r == Filter(src, (o: Option<Modifier>) => o.Some?)
  {
    var inPlace := copyInPlaceEnabled && |dest| == |src|;
    if inPlace && NoNulls(src) then
      var r := seq(|src|, i requires 0 <= i < |src| =>
        if dest[i].Some? && dest[i].value.struct == src[i].value.struct then Some(src[i].value) // copied in place
        else Some(src[i].value));                                                               // replaced by a clone
      assert r == src;
      FilterKeepsAll(src, (o: Option<Modifier>) => o.Some?);
      r
    else Filter(src, (o: Option<Modifier>) => o.Some?)
  }

  /** operator=: both arrays copied; the copy holds `other`'s modifiers, nulls dropped, whatever it held before. */
  function Assign(g: Group, other: Group, copyInPlaceEnabled: bool): (r: Group)
    ensures NoNulls(r.active) && NoNulls(r.queued)
    ensures NoNulls(other.active) && NoNulls(other.queued) ==> r == other
  {
    FilterKeepsAll(other.active, (o: Option<Modifier>) => o.Some?);
    FilterKeepsAll(other.queued, (o: Option<Modifier>) => o.Some?);
    Group(CopyModifierArray(g.active, other.active, copyInPlaceEnabled), CopyModifierArray(g.queued, other.queued, copyInPlaceEnabled))
  }

  // ---------------------------------------------------------------------
  // Lookup by handle (UJoltMoverComponent::FindMovementModifier)
  // ---------------------------------------------------------------------

  /** The first modifier of an array with handle `h`; every slot is dereferenced. */
  function FindByHandle(s: seq<Option<Modifier>>, h: Handle): (r: Option<Modifier>)
    requires NoNulls(s)
    ensures r.Some? ==> r.value.handle == h && exists i :: 0 <= i < |s| && s[i] == r
    ensures r.None? <==> forall i :: 0 <= i < |s| ==> s[i].value.handle != h
  {
    if |s| == 0 then None
    else if s[0].value.handle == h then s[0]
    else
      assert forall i :: 1 <= i < |s| ==> s[1..][i - 1] == s[i];
      FindByHandle(s[1..], h)
  }

  /** GetQueuedModifiersIterator, which iterates the ACTIVE modifiers. */
  function QueuedIteratorAsWritten(g: Group): (r: seq<Option<Modifier>>)
    ensures r == g.active
  {
    g.active
  }

  /**
   * FindMovementModifier through that iterator: an invalid handle finds nothing;
   * otherwise the active modifiers, then what the queued iterator yields,
   * then the state machine's queue (`fsmFind`).
   */
  function FindMovementModifierAsWritten(g: Group, h: Handle, fsmFind: Handle -> Option<Modifier>): (r: Option<Modifier>)
    requires NoNulls(g.active)
    ensures !IsValid(h) ==> r.None?
    ensures IsValid(h) ==> r == (if FindByHandle(g.active, h).Some? then FindByHandle(g.active, h) else fsmFind(h))
  {
    if !IsValid(h) then None
    else
      match FindByHandle(g.active, h)
      case Some(m) => Some(m)
      case None =>
        match FindByHandle(QueuedIteratorAsWritten(g), h)
        case Some(m) => Some(m)
        case None => fsmFind(h)
  }

  /** FindMovementModifier with the queued iterator over the queued modifiers. */
  function FindMovementModifier(g: Group, h: Handle, fsmFind: Handle -> Option<Modifier>): (r: Option<Modifier>)
    requires NoNulls(g.active) && NoNulls(g.queued)
    ensures !IsValid(h) ==> r.None?
    ensures IsValid(h) && r.Some? && r != fsmFind(h) ==> r.value.handle == h
    ensures IsValid(h) && (exists i :: 0 <= i < |g.queued| && g.queued[i].value.handle == h) ==> r.Some? && r.value.handle == h
    ensures IsValid(h) && (exists i :: 0 <= i < |g.active| && g.active[i].value.handle == h) ==> r == FindByHandle(g.active, h)
  {
    if !IsValid(h) then None
    else
      match FindByHandle(g.active, h)
      case Some(m) => Some(m)
      case None =>
        match FindByHandle(g.queued, h)
        case Some(m) => Some(m)
        case None => fsmFind(h)
  }

  /**
   * Through that iterator, a modifier that is only in the queued array is never found
   * by its handle; the corrected lookup finds it.
   */
  lemma QueuedModifierNeverFound(m: Modifier)
    requires m.handle == 7
    ensures var g := Group([], [Some(m)]);
      && FindMovementModifierAsWritten(g, 7, _ => None) == None
      && FindMovementModifier(g, 7, _ => None) == Some(m)
  {
    var g := Group([], [Some(m)]);
    assert g.queued[0].value.handle == 7;
  }
}
