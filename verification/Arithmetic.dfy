/** 64-bit division and remainder built from one 64-by-32-bit divide instruction.
    Machine integers are mathematical integers with their width written out. */
module Arithmetic {
  import opened Common

  const TWO_31: int := 0x8000_0000
  const TWO_32: int := 0x1_0000_0000
  const TWO_63: int := 0x8000_0000_0000_0000
  const TWO_64: int := 0x1_0000_0000_0000_0000

  type uint32 = x: int | 0 <= x < TWO_32
  type uint64 = x: int | 0 <= x < TWO_64
  type int32 = x: int | -TWO_31 <= x < TWO_31
  type int64 = x: int | -TWO_63 <= x < TWO_63

  /** Conversion to a narrower or differently signed type keeps the value modulo the width. */
  function ToUInt64(x: int): (r: uint64)
    ensures 0 <= x < TWO_64 ==> r == x
  {
    x % TWO_64
  }

  function ToUInt32(x: int): (r: uint32)
    ensures 0 <= x < TWO_32 ==> r == x
  {
    x % TWO_32
  }

  function ToInt64(x: int): (r: int64)
    ensures -TWO_63 <= x < TWO_63 ==> r == x
  {
    if x % TWO_64 < TWO_63 then x % TWO_64 else x % TWO_64 - TWO_64
  }

  function ToInt32(x: int): (r: int32)
    ensures -TWO_31 <= x < TWO_31 ==> r == x
  {
    if x % TWO_32 < TWO_31 then x % TWO_32 else x % TWO_32 - TWO_32
  }

  /** `q` is `n / d` rounded toward zero: the remainder is smaller than the divisor and has the sign of `n`. */
  ghost predicate IsTruncatedQuotient(n: int, d: int, q: int) {
    var r := n - q * d;
    Abs(r) < Abs(d) && (r == 0 || (r < 0 <==> n < 0))
  }

  /** The divide instruction. It traps unless the quotient fits in 32 bits, so that is required here:
      every call below is thereby proved not to trap. */
  method Divl(n: uint64, d: uint32) returns (q: uint32)
    requires n < TWO_32 * d
    ensures q * d <= n < q * d + d
  {
    DivBetween(n, d, 0, TWO_32);
    q := n / d;
  }

  // ---------------------------------------------------------------- products and quotients

  /** Dividing by `v` and then by `k` is dividing by `v * k`. */
  lemma DivDiv(u: nat, v: int, k: int)
    requires v > 0 && k > 0
    ensures v * k > 0 && u / v / k == u / (v * k)
  {
    var a := u / v;
    var q := a / k;
    MulLe(1, v, k);
    MulLe(q * k, a, v);
    MulLe(a + 1, q * k + k, v);
    assert q * k * v == q * (v * k);
    assert (q * k + k) * v == q * (v * k) + v * k;
    DivUnique(u, v * k, q);
  }

  // ---------------------------------------------------------------- shifts

  function Pow2(n: nat): (p: nat)
    ensures p > 0
  {
    if n == 0 then 1 else 2 * Pow2(n - 1)
  }

  /** `x << n` before any truncation to a width. */
  function Shl(x: int, n: nat): int {
    if n == 0 then x else 2 * Shl(x, n - 1)
  }

  lemma {:induction false} ShlAdd(x: int, a: nat, b: nat)
    ensures Shl(Shl(x, a), b) == Shl(x, a + b)
  {
    if b > 0 {
      ShlAdd(x, a, b - 1);
    }
  }

  lemma {:induction false} ShlIsMul(x: int, n: nat)
    ensures Shl(x, n) == x * Pow2(n)
  {
    if n > 0 {
      ShlIsMul(x, n - 1);
    }
  }

  lemma Pow2Add(a: nat, b: nat)
    ensures Pow2(a + b) == Pow2(a) * Pow2(b)
  {
    ShlIsMul(1, a);
    ShlIsMul(1, a + b);
    ShlIsMul(Pow2(a), b);
    ShlAdd(1, a, b);
  }

  /** Shifting `x` left by `b` more places multiplies by `k == 2^b`. */
  lemma ShlMore(x: int, y: int, n: nat, b: nat, k: int)
    requires y == Shl(x, n) && k == Pow2(b)
    ensures y * k == Shl(x, n + b)
  {
    ShlAdd(x, n, b);
    ShlIsMul(Shl(x, n), b);
  }

  lemma Pow2Values()
    ensures Pow2(1) == 2 && Pow2(2) == 4 && Pow2(4) == 0x10 && Pow2(8) == 0x100
    ensures Pow2(16) == 0x1_0000 && Pow2(32) == TWO_32
  {
    assert Pow2(2) == 2 * Pow2(1);
    Pow2Add(2, 2);
    Pow2Add(4, 4);
    Pow2Add(8, 8);
    Pow2Add(16, 16);
  }

  // ---------------------------------------------------------------- leading zeros

  /** Counts leading zeros: shifting `x` left by the result moves its top set bit to bit 31. */
  method Nlz(x: uint32) returns (n: nat)
    requires x != 0
    ensures n < 32 && TWO_31 <= Shl(x, n) < TWO_32
  {
    n := 0;
    Pow2Values();
    var y: uint32 := x;
    if y <= 0x0000_FFFF {
      ghost var next := n + 16;
      ShlMore(x, y, n, 16, 0x1_0000);
      assert Shl(x, next) == y * 0x1_0000;
      n, y := n + 16, y * 0x1_0000;
      assert n == next;
    }
    assert y == Shl(x, n) && y > 0x0000_FFFF && n <= 16;
    if y <= 0x00FF_FFFF {
      ghost var next := n + 8;
      ShlMore(x, y, n, 8, 0x100);
      assert Shl(x, next) == y * 0x100;
      n, y := n + 8, y * 0x100;
      assert n == next;
    }
    assert y == Shl(x, n) && y > 0x00FF_FFFF && n <= 24;
    if y <= 0x0FFF_FFFF {
      ghost var next := n + 4;
      ShlMore(x, y, n, 4, 0x10);
      assert Shl(x, next) == y * 0x10;
      n, y := n + 4, y * 0x10;
      assert n == next;
    }
    assert y == Shl(x, n) && y > 0x0FFF_FFFF && n <= 28;
    if y <= 0x3FFF_FFFF {
      ghost var next := n + 2;
      ShlMore(x, y, n, 2, 4);
      assert Shl(x, next) == y * 4;
      n, y := n + 2, y * 4;
      assert n == next;
    }
    assert y == Shl(x, n) && y > 0x3FFF_FFFF && n <= 30;
    if y <= 0x7FFF_FFFF {
      ghost var next := n + 1;
      ShlMore(x, y, n, 1, 2);
      assert Shl(x, next) == y * 2;
      n := n + 1;
      assert n == next;
    }
  }

  // ---------------------------------------------------------------- the small-divisor path

  /** Long division in base 2^32: the remainder of the high word leads the low divide, and the two partial
      quotients add up. */
  lemma PartialQuotients(n: nat, d: int, q1: int, r1: int, n0: int, q0: int)
    requires d > 0 && n == TWO_32 * (q1 * d + r1) + n0
    requires q0 * d <= TWO_32 * r1 + n0 < q0 * d + d
    ensures n / d == q0 + TWO_32 * q1
  {
    assert (q0 + TWO_32 * q1) * d == q0 * d + TWO_32 * (q1 * d);
    DivUnique(n, d, q0 + TWO_32 * q1);
  }

  /** 32-bit division with remainder, the two halves of the high word. */
  method DivMod32(n: uint32, d: uint32) returns (q: uint32, r: uint32)
    requires d != 0
    ensures n == q * d + r && r < d
  {
    QuotientAtMost(n, d);
    q, r := n / d, n % d;
  }

  /** Quotient by a divisor that fits in 32 bits. */
  method UDiv64Small(n: uint64, d: uint64) returns (r: uint64)
    requires 0 < d < TWO_32
    ensures r == n / d
  {
    var n1, n0 := n / TWO_32, n % TWO_32;
    var q1, r1 := DivMod32(n1, d);
    var q0 := Divl(TWO_32 * r1 + n0, d);
    PartialQuotients(n, d, q1, r1, n0, q0);
    QuotientAtMost(n, d);
    r := ToUInt64(q0 + TWO_32 * q1);
  }

  // ---------------------------------------------------------------- the large-divisor path

  /** With `p * a == 2^32` and the high word times `p` below 2^32, shifting the whole divisor loses no bit. */
  lemma ShiftKeepsAllBits(d: uint64, d1: nat, p: nat, a: nat)
    requires p > 0 && p * a == TWO_32 && d1 == d / TWO_32 && d1 * p < TWO_32
    ensures d1 * p * TWO_32 <= d * p < TWO_64
  {
    Cancel(d1, a, p);
    MulLe(d1 + 1, a, p);
    MulLe(d + 1, (d1 + 1) * TWO_32, p);
    MulLe(d1 * TWO_32, d, p);
    Associate(d1, TWO_32, p);
    Associate(d1 + 1, TWO_32, p);
  }

  lemma Associate(x: int, y: int, z: int)
    ensures x * y * z == x * z * y
  {
  }

  /** The high word `v` of the shifted divisor brackets the divisor between `a * v` and `a * v + a`. */
  lemma HighWordBrackets(d: nat, p: nat, a: nat, v: int)
    requires p > 0 && p * a == TWO_32 && v == d * p / TWO_32
    ensures a * v <= d < a * v + a
  {
    ProductOf(a, v, p);
    ProductOf(a, v + 1, p);
    Cancel(a * v, d, p);
    Cancel(d, a * (v + 1), p);
    assert a * (v + 1) == a * v + a;
  }

  lemma ProductOf(a: int, v: int, p: int)
    requires p * a == TWO_32
    ensures a * v * p == v * TWO_32
  {
    assert a * v * p == v * (p * a);
  }

  /** The square of a power of two is at least four times one less than it. */
  lemma SquareBound(a: int)
    ensures a * a >= 4 * (a - 1)
  {
    assert (a - 2) * (a - 2) == a * a - 4 * (a - 1);
  }

  /** With `a * b == 2^33` and `w >= a * 2^31`, a quotient by `w` is below `b`. */
  lemma QuotientBelow(w: nat, q: nat, a: nat, b: nat)
    requires a * b == 2 * TWO_32 && w >= a * TWO_31 && w > 0 && q * w < TWO_64
    ensures q < b
  {
    MulLe(a * TWO_31, w, b);
    assert a * TWO_31 * b == TWO_31 * (a * b);
    Cancel(q, b, w);
  }

  /** With the same powers of two, `b` steps of rounding error `a - 1` fit in one `w`. */
  lemma ErrorFits(w: nat, a: nat, b: nat)
    requires a >= 1 && a * b == 2 * TWO_32 && w >= a * TWO_31
    ensures b * (a - 1) <= w
  {
    assert b * (a - 1) * a == (a * b) * (a - 1);
    SquareBound(a);
    MulLe(a * TWO_31, w, a);
    assert a * TWO_31 * a == TWO_31 * (a * a);
    Cancel(b * (a - 1), w, a);
  }

  /** A divisor less than `a` above `w`, taken `q + 1` times, is at most `q + 2` times `w`. */
  lemma OneMoreCovers(q: nat, d: nat, w: nat, a: nat, b: nat)
    requires a >= 1 && d < w + a && q < b && b * (a - 1) <= w
    ensures (q + 1) * d <= (q + 2) * w
  {
    var e := a - 1;
    MulLe(d, w + e, q + 1);
    MulLe(q + 1, b, e);
    Distribute(w, e, q + 1);
    Distribute(q + 1, 1, w);
  }

  /** The estimate `n / w` is the quotient `n / d` or one more, where `w` is `d` rounded down to a multiple of `a`. */
  lemma EstimateAtMostOneHigh(n: uint64, d: nat, w: nat, a: nat, b: nat)
    requires a >= 1 && a * b == 2 * TWO_32
    requires a * TWO_31 <= w <= d < w + a && w > 0
    ensures n / d <= n / w <= n / d + 1
  {
    var q := n / d;
    assert q * d <= n < (q + 1) * d && q >= 0 by {
      QuotientBrackets(n, d, q);
    }
    assert q * w <= n by {
      MulLe(w, d, q);
    }
    assert n < (q + 2) * w by {
      QuotientBelow(w, q, a, b);
      ErrorFits(w, a, b);
      OneMoreCovers(q, d, w, a, b);
    }
    DivBetween(n, w, q, q + 2);
  }

  lemma QuotientBrackets(n: nat, d: int, q: int)
    requires d > 0 && q == n / d
    ensures q * d <= n < (q + 1) * d && q >= 0
  {
    QuotientAtMost(n, d);
  }

  lemma Distribute(x: int, y: int, z: int)
    ensures (x + y) * z == z * x + z * y
  {
  }

  /** A high word `v` of the shifted divisor that keeps its top bit brackets the divisor. */
  lemma NormalisedByShift(d: uint64, s: nat)
    requires d >= TWO_32 && s < 32 && TWO_31 <= Shl(d / TWO_32, s) < TWO_32
    ensures Shl(d, s) < TWO_64
    ensures var v, a := Shl(d, s) / TWO_32, Pow2(32 - s);
      TWO_31 <= v < TWO_32 && a * v <= d < a * v + a
  {
    ShlIsMul(d / TWO_32, s);
    ShlIsMul(d, s);
    Pow2Values();
    Pow2Add(s, 32 - s);
    ShiftKeepsAllBits(d, d / TWO_32, Pow2(s), Pow2(32 - s));
    HighWordBrackets(d, Pow2(s), Pow2(32 - s), Shl(d, s) / TWO_32);
  }

  /** The shifts around the divide amount to dividing by `2^(32-s) * v`. */
  lemma ShiftedQuotient(n: nat, v: int, s: nat)
    requires v > 0 && s < 32
    ensures Pow2(32 - s) * v > 0 && n / 2 / v / Pow2(31 - s) == n / (Pow2(32 - s) * v)
  {
    var k := Pow2(31 - s);
    DivDiv(n / 2, v, k);
    DivDiv(n, 2, v * k);
    assert 2 * (v * k) == Pow2(32 - s) * v;
  }

  lemma ComplementaryPowers(s: nat)
    requires s < 32
    ensures Pow2(32 - s) * Pow2(s + 1) == 2 * TWO_32
  {
    Pow2Values();
    Pow2Add(32 - s, s + 1);
    assert Pow2(33) == 2 * Pow2(32);
  }

  lemma NormalisedProduct(a: int, v: int)
    requires a > 0 && v >= TWO_31
    ensures a * TWO_31 <= a * v && a * v > 0
  {
    MulLe(TWO_31, v, a);
  }

  /** The large-divisor path: the divide does not trap and its shifted result is the quotient or one more. */
  lemma LargeDivisor(n: uint64, d: uint64, s: nat)
    requires d >= TWO_32 && s < 32 && TWO_31 <= Shl(d / TWO_32, s) < TWO_32
    ensures Shl(d, s) < TWO_64
    ensures var v := Shl(d, s) / TWO_32;
      TWO_31 <= v < TWO_32 && n / d <= n / 2 / v / Pow2(31 - s) <= n / d + 1
  {
    NormalisedByShift(d, s);
    var v, a := Shl(d, s) / TWO_32, Pow2(32 - s);
    ShiftedQuotient(n, v, s);
    ComplementaryPowers(s);
    NormalisedProduct(a, v);
    EstimateAtMostOneHigh(n, d, a * v, a, Pow2(s + 1));
  }

  /** The last test lowers an estimate that was one too high; the wrapped subtraction never misleads it. */
  lemma Correction(n: uint64, d: uint64, q: int, t: int, p: int)
    requires 1 <= d <= n && t == n / d && t >= 1 && t <= q <= t + 1 && p == (q - 1) * d
    ensures (if ToUInt64(n - p) < d then q - 1 else q) == t
  {
    var m := t * d;
    assert m <= n < m + d;
    Distribute(q, -1, d);
    assert q == t + 1 ==> p == m;
    assert q == t ==> p == m - d;
    MulLe(1, t, d);
  }

  /** Unsigned 64-bit quotient, for every dividend and every nonzero divisor. */
  method UDiv64(n: uint64, d: uint64) returns (r: uint64)
    requires d != 0
    ensures r == n / d
  {
    if d / TWO_32 == 0 {
      r := UDiv64Small(n, d);
    } else if n < d {
      DivUnique(n, d, 0);
      r := 0;
    } else {
      r := UDiv64Large(n, d);
    }
  }

  method UDiv64Large(n: uint64, d: uint64) returns (r: uint64)
    requires TWO_32 <= d <= n
    ensures r == n / d
  {
    var s := Nlz(d / TWO_32);
    LargeDivisor(n, d, s);
    var v: uint32 := ToUInt64(Shl(d, s)) / TWO_32;
    var w := Divl(n / 2, v);
    DivUnique(n / 2, v, w);
    var q: int := w / Pow2(31 - s);
    ghost var t := n / d;
    DivBetween(n, d, 1, 1);
    Correction(n, d, q, t, (q - 1) * d);
    r := if ToUInt64(n - (q - 1) * d) < d then q - 1 else q;
  }

  /** Unsigned remainder: narrowed to 32 bits by its return type, so exact only when it fits. */
  method UMod64(n: uint64, d: uint64) returns (r: uint32)
    requires d != 0
    ensures r == ToUInt32(n % d)
    ensures r == n % d <==> n % d < TWO_32
  {
    var q := UDiv64(n, d);
    assert n - d * q == n % d;
    r := ToUInt32(ToUInt64(n - d * q));
  }

  /** The magnitude of a signed value, by negating its unsigned image: right for the least integer too. */
  function Magnitude(x: int64): (r: uint64)
    ensures r == Abs(x)
  {
    if x >= 0 then ToUInt64(x) else ToUInt64(0 - ToUInt64(x))
  }

  /** Signed quotient: rounds toward zero; only the least integer divided by -1 is out of range, and it wraps. */
  method SDiv64(n: int64, d: int64) returns (r: int64)
    requires d != 0
    ensures (n == -TWO_63 && d == -1) ==> r == -TWO_63
    ensures IsTruncatedQuotient(n, d, r) <==> !(n == -TWO_63 && d == -1)
  {
    var qAbs := UDiv64(Magnitude(n), Magnitude(d));
    SignedQuotient(n, d, qAbs);
    r := if (n < 0) == (d < 0) then ToInt64(qAbs) else ToInt64(0 - ToInt64(qAbs));
    SignedResult(n, d, qAbs, r);
  }

  lemma LeastByMinusOne()
    ensures !IsTruncatedQuotient(-TWO_63, -1, -TWO_63)
  {
  }

  /** Putting the sign back wraps only for the least integer divided by -1. */
  lemma SignedResult(n: int64, d: int64, q: nat, r: int64)
    requires d != 0 && q <= TWO_63 && (q == TWO_63 <==> n == -TWO_63 && Abs(d) == 1)
    requires IsTruncatedQuotient(n, d, if (n < 0) == (d < 0) then q else 0 - q)
    requires r == if (n < 0) == (d < 0) then ToInt64(q) else ToInt64(0 - ToInt64(q))
    ensures (n == -TWO_63 && d == -1) ==> r == -TWO_63
    ensures IsTruncatedQuotient(n, d, r) <==> !(n == -TWO_63 && d == -1)
  {
    if n == -TWO_63 && d == -1 {
      LeastByMinusOne();
    }
  }

  /** The magnitudes' quotient, given back its sign, is the truncated quotient. */
  lemma SignedQuotient(n: int64, d: int64, q: nat)
    requires d != 0 && q == Abs(n) / Abs(d)
    ensures q <= TWO_63 && (q == TWO_63 <==> n == -TWO_63 && Abs(d) == 1)
    ensures IsTruncatedQuotient(n, d, if (n < 0) == (d < 0) then q else 0 - q)
  {
    QuotientAtMost(Abs(n), Abs(d));
    if Abs(d) >= 2 {
      HalfAtMost(Abs(n), Abs(d));
    }
    FromMagnitudes(n, d, q);
  }

  lemma HalfAtMost(n: nat, d: int)
    requires d >= 2
    ensures 2 * (n / d) <= n
  {
    MulLe(2, d, n / d);
  }

  lemma FromMagnitudes(n: int, d: int, q: nat)
    requires d != 0 && q == Abs(n) / Abs(d)
    ensures IsTruncatedQuotient(n, d, if (n < 0) == (d < 0) then q else 0 - q)
  {
    var p := q * Abs(d);
    var x := if (n < 0) == (d < 0) then q else 0 - q;
    QuotientBrackets(Abs(n), Abs(d), q);
    Distribute(q, 1, Abs(d));
    SignedProduct(q, d);
    MulLe(0, q, Abs(d));
    SignRestored(n, d, x, p);
  }

  /** A quotient with the right sign whose product with the divisor is just short of the dividend. */
  lemma SignRestored(n: int, d: int, x: int, p: nat)
    requires p <= Abs(n) < p + Abs(d) && x * d == if n < 0 then 0 - p else p
    ensures IsTruncatedQuotient(n, d, x)
  {
  }

  lemma SignedProduct(q: nat, d: int)
    ensures q * d == if d < 0 then -(q * Abs(d)) else q * Abs(d)
    ensures (0 - q) * d == if d < 0 then q * Abs(d) else -(q * Abs(d))
  {
  }

  /** Signed remainder: exact whenever it fits in 32 bits, even for the quotient that wraps. */
  method SMod64(n: int64, d: int64) returns (r: int32)
    requires d != 0
    ensures exists q ::
      IsTruncatedQuotient(n, d, q) && r == ToInt32(n - q * d) && (r == n - q * d <==> -TWO_31 <= n - q * d < TWO_31)
  {
    var s := SDiv64(n, d);
    r := ToInt32(ToInt64(n - ToInt64(d * s)));
    SignedRemainder(n, d, s);
  }

  lemma SignedRemainder(n: int64, d: int64, s: int64)
    requires (n == -TWO_63 && d == -1) ==> s == -TWO_63
    requires d != 0 && (IsTruncatedQuotient(n, d, s) <==> !(n == -TWO_63 && d == -1))
    ensures exists q :: IsTruncatedQuotient(n, d, q) && ToInt32(ToInt64(n - ToInt64(d * s))) == ToInt32(n - q * d)
  {
    if n == -TWO_63 && d == -1 {
      assert IsTruncatedQuotient(n, d, TWO_63);
    } else {
      RemainderFits(n, d, s, s * d);
      assert IsTruncatedQuotient(n, d, s);
    }
  }

  /** The remainder computed in 64 bits is exact: it lies between zero and the dividend. */
  lemma RemainderFits(n: int64, d: int64, s: int64, p: int)
    requires d != 0 && IsTruncatedQuotient(n, d, s) && p == s * d
    ensures ToInt64(n - ToInt64(p)) == n - p
  {
    TruncatedProduct(n, d, s, p);
  }

  /** A truncated quotient times the divisor never exceeds the dividend in magnitude and has its sign. */
  lemma TruncatedProduct(n: int, d: int, s: int, p: int)
    requires d != 0 && IsTruncatedQuotient(n, d, s) && p == s * d
    ensures 0 <= p <= n || n <= p <= 0
  {
    NonzeroProduct(s, d);
  }

  /** There is only one truncated quotient, so the contracts above determine their results. */
  lemma TruncatedQuotientUnique(n: int, d: int, q: int, q': int)
    requires d != 0 && IsTruncatedQuotient(n, d, q) && IsTruncatedQuotient(n, d, q')
    ensures q == q'
  {
    var a, b := q * d, q' * d;
    RemaindersAreClose(n, d, a, b);
    assert (q - q') * d == a - b by {
      Distribute(q, -q', d);
    }
    NonzeroProduct(q - q', d);
  }

  /** Two remainders smaller than the divisor, with the dividend's sign, differ by less than the divisor. */
  lemma RemaindersAreClose(n: int, d: int, a: int, b: int)
    requires Abs(n - a) < Abs(d) && (n - a == 0 || (n - a < 0 <==> n < 0))
    requires Abs(n - b) < Abs(d) && (n - b == 0 || (n - b < 0 <==> n < 0))
    ensures Abs(a - b) < Abs(d)
  {
  }

  lemma NonzeroProduct(e: int, d: int)
    ensures e != 0 ==> Abs(e * d) >= Abs(d)
  {
    SignedProduct(Abs(e), d);
    if e != 0 {
      MulLe(1, Abs(e), Abs(d));
    }
  }

  /** A remainder that does not fit its 32-bit return type comes back changed. */
  method UModLosesHighBits() returns (r: uint32)
    ensures r == 0 != TWO_32 % (2 * TWO_32)
  {
    r := UMod64(TWO_32, 2 * TWO_32);
  }

  /** So does a signed one. */
  method SModLosesHighBits() returns (r: int32)
    ensures exists q :: IsTruncatedQuotient(TWO_32, 2 * TWO_32, q) && r == 0 != TWO_32 - q * (2 * TWO_32)
  {
    r := SMod64(TWO_32, 2 * TWO_32);
    ghost var q :| IsTruncatedQuotient(TWO_32, 2 * TWO_32, q) && r == ToInt32(TWO_32 - q * (2 * TWO_32));
    assert IsTruncatedQuotient(TWO_32, 2 * TWO_32, 0);
    TruncatedQuotientUnique(TWO_32, 2 * TWO_32, q, 0);
  }
}
