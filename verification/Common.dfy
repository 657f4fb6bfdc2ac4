/**
 * Shared vocabulary of the model: an optional value, the engine's
 * "no index" sentinel and a few integer helpers used across modules.
 */
module Common {

  /** The engine's INDEX_NONE: used for "no frame" and "no id". */
  const INDEX_NONE: int := -1

  /** A uint8. */
  type Byte = b: int | 0 <= b < 256

  const INT32_MIN: int := -0x8000_0000
  const INT32_MAX: int := 0x7FFF_FFFF

  predicate IsInt32(x: int) {
    INT32_MIN <= x <= INT32_MAX
  }

  /** A value that may be absent (a null pointer, a failed lookup). */
  datatype Option<+T> = None | Some(value: T) {
    predicate IsSome() {
      Some?
    }

    function GetOr(default: T): (r: T)
      ensures Some? ==> r == value
      ensures None? ==> r == default
    {
      match this
      case Some(v) => v
      case None => default
    }
  }

  function Max(a: int, b: int): (r: int)
    ensures r >= a && r >= b
    ensures r == a || r == b
  {
    if a >= b then a else b
  }

  function Min(a: int, b: int): (r: int)
    ensures r <= a && r <= b
    ensures r == a || r == b
  {
    if a <= b then a else b
  }

  /** FMath::Clamp: the value pulled into [lo, hi] (lo wins when lo > hi). */
  function Clamp(x: int, lo: int, hi: int): (r: int)
    ensures lo <= hi ==> lo <= r <= hi
    ensures lo <= x <= hi ==> r == x
  {
    if x < lo then lo else if x < hi then x else hi
  }

  /**
   * The float overload of FMath::Clamp, used for times, dilations and
   * velocities; the same rule as Clamp on exact reals.
   */
  function RealClamp(x: real, lo: real, hi: real): (r: real)
    ensures lo <= hi ==> lo <= r <= hi
    ensures lo <= x <= hi ==> r == x
  {
    if x < lo then lo else if x < hi then x else hi
  }

  /** C++ integer division: the quotient rounded toward zero. */
  function TruncDiv(a: int, b: int): (q: int)
    requires b != 0
    ensures a >= 0 && b > 0 ==> q == a / b
    ensures (a >= 0) == (b > 0) || a == 0 ==> q >= 0
    ensures (a >= 0) != (b > 0) ==> q <= 0
  {
    var q := (if a < 0 then -a else a) / (if b < 0 then -b else b);
    if (a < 0) != (b < 0) then -q else q
  }

  /** TruncDiv is C++ integer division: negating either argument negates the quotient. */
  lemma TruncDivOdd(a: int, b: int)
    requires b != 0
    ensures TruncDiv(-a, b) == -TruncDiv(a, b) && TruncDiv(a, -b) == -TruncDiv(a, b)
  {
    var n := if a < 0 then -a else a;
    var m := if b < 0 then -b else b;
    assert (if -a < 0 then a else -a) == n || a == 0;
    assert (if -b < 0 then b else -b) == m;
  }

  /** The product TruncDiv(a, b) * b lies between 0 and a, less than |b| away from a. */
  lemma TruncDivTowardZero(a: int, b: int)
    requires b != 0
    ensures var p := TruncDiv(a, b) * b; var m := if b < 0 then -b else b;
      (a >= 0 ==> 0 <= p <= a && a - p < m) && (a < 0 ==> a <= p <= 0 && p - a < m)
  {
    var n := if a < 0 then -a else a;
    var m := if b < 0 then -b else b;
    var q := n / m;
    DivBracket(n, m);
    var t := TruncDiv(a, b);
    assert t == (if (a < 0) != (b < 0) then -q else q);
    NegMul(q, m, b);
    assert t * b == (if a < 0 then -(q * m) else q * m);
  }

  /** Euclidean division of naturals, as a bracket on the product. */
  lemma DivBracket(n: int, m: int)
    requires n >= 0 && m > 0
    ensures 0 <= (n / m) * m <= n < (n / m) * m + m
  {
    assert n == (n / m) * m + n % m;
    assert n / m >= 0;
  }

  /** Sign of a product when one factor is negated. */
  lemma NegMul(q: int, m: int, b: int)
    requires b == m || b == -m
    ensures -q * b == (if b == m then -(q * m) else q * m)
    ensures q * b == (if b == m then q * m else -(q * m))
  {
  }

  /** A product of non-negative reals is non-negative. */
  lemma MulNonneg(a: real, b: real)
    requires a >= 0.0 && b >= 0.0
    ensures a * b >= 0.0
  {
  }

  /** UE_SMALL_NUMBER, the default tolerance of FMath::IsNearlyEqual and FMath::IsNearlyZero. */
  const SMALL_NUMBER: real := 0.00000001

  function RealAbs(x: real): (r: real)
    ensures r >= 0.0 && (r == x || r == -x)
  {
    if x < 0.0 then -x else x
  }

  /** FMath::IsNearlyEqual with its default tolerance. */
  predicate NearlyEqual(a: real, b: real)
  {
    RealAbs(a - b) <= SMALL_NUMBER
  }

  /** UE_KINDA_SMALL_NUMBER, the looser tolerance some comparisons pass explicitly. */
  const KINDA_SMALL_NUMBER: real := 0.0001

  /** FMath::CeilToInt: the least integer not below x. */
  function Ceil(x: real): (r: int)
    ensures x <= r as real < x + 1.0
  {
    -((-x).Floor)
  }

  /** An integer bounds x from above exactly when it bounds its ceiling. */
  lemma CeilLeast(x: real, n: int)
    ensures Ceil(x) <= n <==> x <= n as real
  {
  }

  /** 2^n. */
  function Pow2(n: nat): (r: nat)
    ensures r >= 1
  {
    if n == 0 then 1 else 2 * Pow2(n - 1)
  }

  /** Removes every occurrence of x (TArray::Remove). */
  function RemoveAll<T(==)>(s: seq<T>, x: T): (r: seq<T>)
    ensures x !in r
    ensures forall i :: 0 <= i < |r| ==> r[i] in s
    ensures forall i :: 0 <= i < |s| && s[i] != x ==> s[i] in r
    ensures |r| <= |s|
  {
    if |s| == 0 then []
    else if s[0] == x then RemoveAll(s[1..], x)
    else [s[0]] + RemoveAll(s[1..], x)
  }

  /** TArray::AddUnique: appends x unless it is already present. */
  function AddUnique<T(==)>(s: seq<T>, x: T): (r: seq<T>)
    ensures x in r
    ensures forall i :: 0 <= i < |s| ==> s[i] in r
    ensures x in s ==> r == s
    ensures x !in s ==> r == s + [x]
  {
    if x in s then s else s + [x]
  }

  /** The index of the last occurrence of x, or -1. */
  function LastIndexOf<T(==)>(s: seq<T>, x: T): (k: int)
    ensures -1 <= k < |s|
    ensures k >= 0 ==> s[k] == x
    ensures forall j :: k < j < |s| ==> s[j] != x
    ensures k == -1 <==> x !in s
  {
    if |s| == 0 then -1
    else if s[|s| - 1] == x then |s| - 1
    else LastIndexOf(s[..|s| - 1], x)
  }

  lemma MulMono(d: nat, a: int, b: int)
    requires a <= b
    ensures d * a <= d * b
  {
    assert d * b - d * a == d * (b - a);
  }

  /** Division by a positive divisor has one quotient and one remainder. */
  lemma DivUnique(x: nat, d: nat, q: nat, r: nat)
    requires d > 0 && 0 <= r < d && x == d * q + r
    ensures x / d == q && x % d == r
  {
    var q0, r0 := x / d, x % d;
    assert x == d * q0 + r0;
    if q0 < q {
      MulMono(d, q0 + 1, q);
      assert false;
    } else if q0 > q {
      MulMono(d, q + 1, q0);
      assert false;
    }
  }

  /**
   * The elements `keep` accepts, in their original order (TArray::RemoveAll
   * with the negated predicate, which keeps the survivors in order).
   */
  function Filter<T>(s: seq<T>, keep: T -> bool): (r: seq<T>)
    ensures |r| <= |s|
    ensures forall i :: 0 <= i < |r| ==> keep(r[i]) && r[i] in s
    ensures forall i :: 0 <= i < |s| && keep(s[i]) ==> s[i] in r
  {
    if |s| == 0 then []
    else if keep(s[0]) then [s[0]] + Filter(s[1..], keep)
    else Filter(s[1..], keep)
  }

  lemma {:induction false} FilterAppend<T>(a: seq<T>, b: seq<T>, keep: T -> bool)
    ensures Filter(a + b, keep) == Filter(a, keep) + Filter(b, keep)
  {
    if |a| > 0 {
      assert (a + b)[1..] == a[1..] + b;
      FilterAppend(a[1..], b, keep);
    } else {
      assert a + b == b;
    }
  }

  /** Filtering keeps everything exactly when every element is accepted. */
  lemma {:induction false} FilterKeepsAll<T>(s: seq<T>, keep: T -> bool)
    ensures Filter(s, keep) == s <==> forall i :: 0 <= i < |s| ==> keep(s[i])
  {
    if |s| > 0 {
      FilterKeepsAll(s[1..], keep);
      assert forall i :: 1 <= i < |s| ==> s[1..][i - 1] == s[i];
      if !keep(s[0]) {
        assert |Filter(s, keep)| < |s|;
      }
    }
  }
}
