/**
 * Unsigned bit operations on natural numbers: the C++ `&`, `|`, `~`,
 * `<<` and `>>` as the engine code applies them to non-negative 32-bit values,
 * and the bit-level facts the rest of the model relies on.
 */
module Bits {
  import opened Common

  const U32_LIMIT: nat := 0x1_0000_0000

  /** Bit i of x. */
  function Bit(x: nat, i: nat): bool
  {
    if i == 0 then x % 2 == 1 else Bit(x / 2, i - 1)
  }

  /** x >> n. */
  function Shr(x: nat, n: nat): (r: nat)
    ensures r <= x
  {
    if n == 0 then x else Shr(x / 2, n - 1)
  }

  /** x & y. */
  function BitAnd(x: nat, y: nat): (r: nat)
    ensures r <= x && r <= y
  {
    if x == 0 || y == 0 then 0
    else 2 * BitAnd(x / 2, y / 2) + (if x % 2 == 1 && y % 2 == 1 then 1 else 0)
  }

  /** x | y. */
  function BitOr(x: nat, y: nat): (r: nat)
    ensures r >= x && r >= y
  {
    if x == 0 then y
    else if y == 0 then x
    else 2 * BitOr(x / 2, y / 2) + (if x % 2 == 1 || y % 2 == 1 then 1 else 0)
  }

  /** ~x on a uint32. */
  function BitNot32(x: nat): (r: nat)
    requires x < U32_LIMIT
    ensures r < U32_LIMIT
  {
    U32_LIMIT - 1 - x
  }

  /** Number of significant bits: 1 + the index of the highest set bit. */
  function BitLen(x: nat): nat
  {
    if x == 0 then 0 else 1 + BitLen(x / 2)
  }

  lemma {:induction false} ZeroHasNoBits(i: nat)
    ensures !Bit(0, i)
  {
    if i > 0 {
      ZeroHasNoBits(i - 1);
    }
  }

  lemma {:induction false} BitAndBit(x: nat, y: nat, i: nat)
    ensures Bit(BitAnd(x, y), i) == (Bit(x, i) && Bit(y, i))
  {
    if x == 0 {
      ZeroHasNoBits(i);
    } else if y == 0 {
      ZeroHasNoBits(i);
    } else if i > 0 {
      BitAndBit(x / 2, y / 2, i - 1);
    }
  }

  lemma {:induction false} BitOrBit(x: nat, y: nat, i: nat)
    ensures Bit(BitOr(x, y), i) == (Bit(x, i) || Bit(y, i))
  {
    if x == 0 {
      ZeroHasNoBits(i);
    } else if y == 0 {
      ZeroHasNoBits(i);
    } else if i > 0 {
      BitOrBit(x / 2, y / 2, i - 1);
    }
  }

  lemma {:induction false} ShrBit(x: nat, n: nat, i: nat)
    ensures Bit(Shr(x, n), i) == Bit(x, i + n)
  {
    if n > 0 {
      ShrBit(x / 2, n - 1, i);
      assert Bit(x, i + n) == Bit(x / 2, i + n - 1);
    }
  }

  lemma {:induction false} ShrIsDiv(x: nat, n: nat)
    ensures Shr(x, n) == x / Pow2(n)
  {
    if n > 0 {
      ShrIsDiv(x / 2, n - 1);
      DivDiv(x, 2, Pow2(n - 1));
    }
  }

  /** The two-stage quotient and remainder, recombined over a * b. */
  lemma DivDivCombine(x: nat, a: nat, b: nat, q1: nat, r1: nat, q: nat, r2: nat)
    requires a > 0 && b > 0 && r1 < a && r2 < b
    requires x == a * q1 + r1 && q1 == b * q + r2
    ensures x == (a * b) * q + (a * r2 + r1) && a * r2 + r1 < a * b
  {
    assert a * q1 == (a * b) * q + a * r2 by {
      assert a * (b * q + r2) == a * (b * q) + a * r2;
    }
    MulMono(a, r2, b - 1);
    assert a * (b - 1) == a * b - a;
  }

  lemma DivDiv(x: nat, a: nat, b: nat)
    requires a > 0 && b > 0
    ensures x / a / b == x / (a * b)
  {
    var q1 := x / a;
    var q := q1 / b;
    DivDivCombine(x, a, b, q1, x % a, q, q1 % b);
    DivUnique(x, a * b, q, a * (q1 % b) + x % a);
  }

  /** x mod 2m splits into the low bit and (x / 2) mod m. */
  lemma ModDouble(x: nat, m: nat)
    requires m > 0
    ensures x % (2 * m) == 2 * ((x / 2) % m) + x % 2
  {
    var q := (x / 2) / m;
    var r := (x / 2) % m;
    assert x == 2 * (x / 2) + x % 2;
    assert x / 2 == m * q + r;
    assert x == (2 * m) * q + (2 * r + x % 2);
    DivUnique(x, 2 * m, q, 2 * r + x % 2);
  }

  /** The bits of a power of two: exactly one. */
  lemma {:induction false} Pow2Bit(k: nat, i: nat)
    ensures Bit(Pow2(k), i) == (i == k)
  {
    if k == 0 {
      if i > 0 {
        ZeroHasNoBits(i - 1);
      }
    } else if i > 0 {
      Pow2Bit(k - 1, i - 1);
    }
  }

  /** 2^n - 1 has exactly the bits 0 .. n-1. */
  lemma {:induction false} LowOnesBit(n: nat, i: nat)
    ensures Bit(Pow2(n) - 1, i) == (i < n)
  {
    if n == 0 {
      ZeroHasNoBits(i);
    } else if i > 0 {
      LowOnesBit(n - 1, i - 1);
    }
  }

  /** Below 2^n, 2^n - 1 - x flips exactly the bits 0 .. n-1 of x. */
  lemma {:induction false} ComplementBit(n: nat, x: nat, i: nat)
    requires x < Pow2(n)
    ensures Bit(Pow2(n) - 1 - x, i) == (i < n && !Bit(x, i))
  {
    if n == 0 {
      ZeroHasNoBits(i);
    } else {
      var y := Pow2(n) - 1 - x;
      assert y == 2 * (Pow2(n - 1) - 1 - x / 2) + (1 - x % 2);
      assert y % 2 == 1 - x % 2 && y / 2 == Pow2(n - 1) - 1 - x / 2;
      if i > 0 {
        ComplementBit(n - 1, x / 2, i - 1);
      }
    }
  }

  /** ~x on a uint32 flips bits 0 .. 31. */
  lemma BitNot32Bit(x: nat, i: nat)
    requires x < U32_LIMIT
    ensures Bit(BitNot32(x), i) == (i < 32 && !Bit(x, i))
  {
    Pow2Table();
    ComplementBit(32, x, i);
  }

  /** No bit at or above n is set in a value below 2^n. */
  lemma {:induction false} HighBitsClear(x: nat, n: nat, i: nat)
    requires x < Pow2(n) && i >= n
    ensures !Bit(x, i)
  {
    if n == 0 {
      ZeroHasNoBits(i);
    } else {
      HighBitsClear(x / 2, n - 1, i - 1);
    }
  }

  /** Two numbers with the same bits are equal. */
  lemma {:induction false} BitsDetermineValue(x: nat, y: nat)
    requires forall i: nat :: Bit(x, i) == Bit(y, i)
    ensures x == y
    decreases x + y
  {
    if x != 0 || y != 0 {
      assert Bit(x, 0) == Bit(y, 0);
      forall i: nat ensures Bit(x / 2, i) == Bit(y / 2, i) {
        assert Bit(x, i + 1) == Bit(y, i + 1);
      }
      BitsDetermineValue(x / 2, y / 2);
    }
  }

  lemma {:induction false} BitLenBounds(x: nat)
    requires x > 0
    ensures Pow2(BitLen(x) - 1) <= x < Pow2(BitLen(x))
    ensures Bit(x, BitLen(x) - 1)
  {
    var h := x / 2;
    assert x == 2 * h + x % 2;
    if h > 0 {
      BitLenBounds(h);
      var n := BitLen(h);
      assert BitLen(x) == n + 1;
      assert Pow2(n) == 2 * Pow2(n - 1);
      assert Pow2(n + 1) == 2 * Pow2(n);
      assert Bit(x, n) == Bit(h, n - 1);
    } else {
      assert x == 1;
      assert BitLen(x) == 1 && Pow2(1) == 2 && Pow2(0) == 1;
    }
  }

  lemma {:induction false} BitLenMono(x: nat, n: nat)
    requires x < Pow2(n)
    ensures BitLen(x) <= n
  {
    if x > 0 {
      BitLenMono(x / 2, n - 1);
    }
  }

  /** One unfolding of x & (2m - 1): the low bit of x survives, the rest shifts. */
  lemma LowMaskStep(x: nat, m: nat)
    requires m >= 1 && x > 0
    ensures BitAnd(x, 2 * m - 1) == 2 * BitAnd(x / 2, m - 1) + x % 2
  {
    var b := 2 * m - 1;
    assert b / 2 == m - 1 && b % 2 == 1 && b > 0;
  }

  /** The inductive step of LowMaskIsMod, given the claim for x / 2. */
  lemma LowMaskModStep(x: nat, k: nat)
    requires k > 0 && x > 0
    requires BitAnd(x / 2, Pow2(k - 1) - 1) == (x / 2) % Pow2(k - 1)
    ensures BitAnd(x, Pow2(k) - 1) == x % Pow2(k)
  {
    var m := Pow2(k - 1);
    assert Pow2(k) == 2 * m;
    LowMaskStep(x, m);
    ModDouble(x, m);
  }

  /** x & (2^k - 1) keeps the low k bits: it is x mod 2^k. */
  lemma {:induction false} LowMaskIsMod(x: nat, k: nat)
    ensures BitAnd(x, Pow2(k) - 1) == x % Pow2(k)
  {
    if k == 0 {
      assert Pow2(k) - 1 == 0;
    } else if x == 0 {
      assert BitAnd(x, Pow2(k) - 1) == 0;
    } else {
      LowMaskIsMod(x / 2, k - 1);
      LowMaskModStep(x, k);
    }
  }

  /** FMath::IsPowerOfTwo on a positive value: (x & (x - 1)) == 0. */
  predicate IsPowerOfTwo(x: nat)
  {
    x > 0 && BitAnd(x, x - 1) == 0
  }

  lemma {:induction false} BitAndSelf(x: nat)
    ensures BitAnd(x, x) == x
  {
    if x > 0 {
      BitAndSelf(x / 2);
    }
  }

  /** The bitwise test accepts exactly the powers of two. */
  lemma {:induction false} IsPowerOfTwoIff(x: nat)
    ensures IsPowerOfTwo(x) <==> exists k: nat :: Pow2(k) == x
  {
    if x == 0 {
    } else if x == 1 {
      assert Pow2(0) == 1;
    } else if x % 2 == 1 {
      // an odd x > 1 shares all of its upper bits with x - 1
      BitAndSelf(x / 2);
      assert (x - 1) / 2 == x / 2 && x / 2 > 0;
      assert BitAnd(x, x - 1) == 2 * BitAnd(x / 2, x / 2);
      forall k: nat ensures Pow2(k) != x {
        if k > 0 {
          assert Pow2(k) == 2 * Pow2(k - 1);
        }
      }
    } else {
      IsPowerOfTwoIff(x / 2);
      assert (x - 1) / 2 == x / 2 - 1;
      assert BitAnd(x, x - 1) == 2 * BitAnd(x / 2, x / 2 - 1);
      if IsPowerOfTwo(x / 2) {
        var k: nat :| Pow2(k) == x / 2;
        assert Pow2(k + 1) == x;
      }
      if exists k: nat :: Pow2(k) == x {
        var k: nat :| Pow2(k) == x;
        assert k > 0;
        assert Pow2(k - 1) == x / 2;
      }
    }
  }

  /** x << n, on an unbounded value (the caller truncates when needed). */
  function Shl(x: nat, n: nat): nat
  {
    x * Pow2(n)
  }

  /** `(x & (1 << c)) != 0` tests bit c. */
  lemma BitAndSingleBit(x: nat, c: nat)
    ensures (BitAnd(x, Pow2(c)) != 0) == Bit(x, c)
  {
    var a := BitAnd(x, Pow2(c));
    forall i: nat ensures Bit(a, i) == (i == c && Bit(x, c)) {
      BitAndBit(x, Pow2(c), i);
      Pow2Bit(c, i);
    }
    if Bit(x, c) {
      ZeroHasNoBits(c);
    } else {
      forall i: nat ensures Bit(a, i) == Bit(0, i) {
        ZeroHasNoBits(i);
      }
      BitsDetermineValue(a, 0);
    }
  }

  /** OR of a shifted-up value with a value below the shift is a sum. */
  lemma {:induction false} OrOfDisjointIsSum(a: nat, b: nat, n: nat)
    requires b < Pow2(n)
    ensures BitOr(Shl(a, n), b) == Shl(a, n) + b
  {
    if n > 0 && a > 0 && b > 0 {
      var x := Shl(a, n);
      assert x == 2 * Shl(a, n - 1) by {
        assert Pow2(n) == 2 * Pow2(n - 1);
      }
      assert x / 2 == Shl(a, n - 1) && x % 2 == 0;
      OrOfDisjointIsSum(a, b / 2, n - 1);
    }
  }

  lemma {:induction false} BitLenAbove(x: nat, n: nat)
    requires x >= Pow2(n)
    ensures BitLen(x) > n
  {
    if n > 0 {
      BitLenAbove(x / 2, n - 1);
    }
  }

  lemma {:induction false} Pow2Mono(a: nat, b: nat)
    requires a <= b
    ensures Pow2(a) <= Pow2(b)
  {
    if a < b {
      Pow2Mono(a, b - 1);
    }
  }

  /** The powers of two the 32-bit code relies on. */
  lemma Pow2Table()
    ensures Pow2(5) == 32 && Pow2(8) == 256 && Pow2(16) == 0x1_0000
    ensures Pow2(30) == 0x4000_0000 && Pow2(31) == 0x8000_0000
    ensures Pow2(32) == U32_LIMIT
  {
    assert Pow2(1) == 2;
    assert Pow2(2) == 4;
    assert Pow2(3) == 8;
    assert Pow2(4) == 16;
    assert Pow2(5) == 32;
    assert Pow2(6) == 64;
    assert Pow2(7) == 128;
    assert Pow2(8) == 256;
    assert Pow2(9) == 512;
    assert Pow2(10) == 1024;
    assert Pow2(11) == 2048;
    assert Pow2(12) == 4096;
    assert Pow2(13) == 8192;
    assert Pow2(14) == 16384;
    assert Pow2(15) == 32768;
    assert Pow2(16) == 65536;
    assert Pow2(17) == 131072;
    assert Pow2(18) == 262144;
    assert Pow2(19) == 524288;
    assert Pow2(20) == 1048576;
    assert Pow2(21) == 2097152;
    assert Pow2(22) == 4194304;
    assert Pow2(23) == 8388608;
    assert Pow2(24) == 16777216;
    assert Pow2(25) == 33554432;
    assert Pow2(26) == 67108864;
    assert Pow2(27) == 134217728;
    assert Pow2(28) == 268435456;
    assert Pow2(29) == 536870912;
    assert Pow2(30) == 1073741824;
    assert Pow2(31) == 2147483648;
    assert Pow2(32) == 4294967296;
  }
}
