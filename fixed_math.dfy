/** The arithmetic of `fixed<T, fraction>`: wrapping addition, subtraction
    and negation on the raw value, the widened multiply, the truncating and
    the rounding divisions, ordering, the closeness tests and `abs`. */
module FixedMath {
  import opened Arith
  import opened FixedType

  // ---------------------------------------------------------------------
  // Addition, subtraction, negation.

  /** `a + b`: the raw values are added and the sum is stored back into `T`,
      so the result is the sum modulo 2^width, and the sum itself whenever
      it fits. */
  function Add(fmt: Format, a: Fixed, b: Fixed): (r: Fixed)
    ensures IsValue(fmt, r)
    ensures Congruent(a.v + b.v, r.v, fmt.Modulus())
    ensures InRange(fmt, a.v + b.v) ==> r.v == a.v + b.v
  {
    FromBits(fmt, a.v + b.v)
  }

  /** `a - b`, modulo 2^width like addition. */
  function Sub(fmt: Format, a: Fixed, b: Fixed): (r: Fixed)
    ensures IsValue(fmt, r)
    ensures Congruent(a.v - b.v, r.v, fmt.Modulus())
    ensures InRange(fmt, a.v - b.v) ==> r.v == a.v - b.v
  {
    FromBits(fmt, a.v - b.v)
  }

  /** Unary `-a`, modulo 2^width: the signed minimum is its own negation. */
  function Neg(fmt: Format, a: Fixed): (r: Fixed)
    ensures IsValue(fmt, r)
    ensures Congruent(-a.v, r.v, fmt.Modulus())
    ensures InRange(fmt, -a.v) ==> r.v == -a.v
  {
    FromBits(fmt, -a.v)
  }

  /** A value plus its negation is zero, in every format and for every raw
      value, the signed minimum included. */
  lemma AddNegIsZero(fmt: Format, a: Fixed)
    ensures Add(fmt, a, Neg(fmt, a)).v == 0
  {
    var n := Neg(fmt, a).v;
    CongruentAdd(a.v, -a.v, a.v, n, fmt.Modulus());
    CongruentSymmetric(a.v + -a.v, a.v + n, fmt.Modulus());
    WrapCongruent(fmt, a.v + n, 0);
    assert InRange(fmt, 0) by { Pow2Values(); }
  }

  /** Subtraction undoes addition, overflow or not. */
  lemma SubUndoesAdd(fmt: Format, a: Fixed, b: Fixed)
    requires IsValue(fmt, a)
    ensures Sub(fmt, Add(fmt, a, b), b) == a
  {
    WrapAdd(fmt, a.v + b.v, -b.v);
    assert a.v + b.v + -b.v == a.v;
  }

  /** Addition undoes subtraction. */
  lemma AddUndoesSub(fmt: Format, a: Fixed, b: Fixed)
    requires IsValue(fmt, a)
    ensures Add(fmt, Sub(fmt, a, b), b) == a
  {
    WrapAdd(fmt, a.v - b.v, b.v);
    assert a.v - b.v + b.v == a.v;
  }

  lemma AddCommutative(fmt: Format, a: Fixed, b: Fixed)
    ensures Add(fmt, a, b) == Add(fmt, b, a)
  {
    assert a.v + b.v == b.v + a.v;
  }

  /** Wrapping addition is associative: the intermediate wrap does not
      matter. */
  lemma AddAssociative(fmt: Format, a: Fixed, b: Fixed, c: Fixed)
    ensures Add(fmt, Add(fmt, a, b), c) == Add(fmt, a, Add(fmt, b, c))
  {
    WrapAdd(fmt, a.v + b.v, c.v);
    WrapAdd(fmt, b.v + c.v, a.v);
    assert a.v + b.v + c.v == b.v + c.v + a.v;
    assert Add(fmt, b, c).v + a.v == a.v + Add(fmt, b, c).v;
  }

  /** Negation is an involution on the values of `T`. */
  lemma NegInvolutive(fmt: Format, a: Fixed)
    requires IsValue(fmt, a)
    ensures Neg(fmt, Neg(fmt, a)) == a
  {
    WrapNeg(fmt, -a.v);
  }

  /** Subtracting is adding the negation. */
  lemma SubIsAddNeg(fmt: Format, a: Fixed, b: Fixed)
    ensures Sub(fmt, a, b) == Add(fmt, a, Neg(fmt, b))
  {
    WrapAdd(fmt, -b.v, a.v);
    assert Neg(fmt, b).v + a.v == a.v + Neg(fmt, b).v;
  }

  /** Whole numbers add exactly while the sum is between the format's
      integer bounds. */
  lemma AddIntegers(fmt: Format, i: int, j: int)
    requires fmt.Valid()
    requires MinimumAsInt(fmt) <= i <= MaxAsInt(fmt)
    requires MinimumAsInt(fmt) <= j <= MaxAsInt(fmt)
    requires MinimumAsInt(fmt) <= i + j <= MaxAsInt(fmt)
    ensures Add(fmt, FromInt(fmt, i), FromInt(fmt, j)) == FromInt(fmt, i + j)
    ensures ToInt(fmt, Add(fmt, FromInt(fmt, i), FromInt(fmt, j))) == i + j
  {
    Distribute(i, j, Pow2(fmt.frac));
    IntRoundTrip(fmt, i + j);
  }

  /** Whole numbers subtract exactly while the difference is in range. */
  lemma SubIntegers(fmt: Format, i: int, j: int)
    requires fmt.Valid()
    requires MinimumAsInt(fmt) <= i <= MaxAsInt(fmt)
    requires MinimumAsInt(fmt) <= j <= MaxAsInt(fmt)
    requires MinimumAsInt(fmt) <= i - j <= MaxAsInt(fmt)
    ensures Sub(fmt, FromInt(fmt, i), FromInt(fmt, j)) == FromInt(fmt, i - j)
    ensures ToInt(fmt, Sub(fmt, FromInt(fmt, i), FromInt(fmt, j))) == i - j
  {
    Distribute(i, -j, Pow2(fmt.frac));
    NegMul(j, Pow2(fmt.frac));
    IntRoundTrip(fmt, i - j);
  }

  // ---------------------------------------------------------------------
  // Multiplication.

  /** `a * b`: the product of the raw values is formed exactly in the
      double-width type (32 bits for 8- and 16-bit `T`, 64 bits for 32-bit
      `T`), shifted right by `fraction` (rounding toward minus infinity) and
      stored into `T`. When that quotient fits, the result is the floor of
      the product over 2^fraction. */
  function Mul(fmt: Format, a: Fixed, b: Fixed): (r: Fixed)
    requires fmt.Valid()
    ensures IsValue(fmt, r)
    ensures Congruent((a.v * b.v) / Pow2(fmt.frac), r.v, fmt.Modulus())
    ensures var p := Pow2(fmt.frac);
            InRange(fmt, (a.v * b.v) / p) ==> r.v * p <= a.v * b.v < r.v * p + p
  {
    DivBounds(a.v * b.v, Pow2(fmt.frac));
    FromBits(fmt, (a.v * b.v) / Pow2(fmt.frac))
  }

  /** Whole numbers multiply exactly while the product is in range. */
  lemma MulIntegers(fmt: Format, i: int, j: int)
    requires fmt.Valid()
    requires MinimumAsInt(fmt) <= i <= MaxAsInt(fmt)
    requires MinimumAsInt(fmt) <= j <= MaxAsInt(fmt)
    requires MinimumAsInt(fmt) <= i * j <= MaxAsInt(fmt)
    ensures Mul(fmt, FromInt(fmt, i), FromInt(fmt, j)) == FromInt(fmt, i * j)
    ensures ToInt(fmt, Mul(fmt, FromInt(fmt, i), FromInt(fmt, j))) == i * j
  {
    var p := Pow2(fmt.frac);
    MulShuffle(i, p, j, p);
    MulAssoc(i * j, p, p);
    MulDivExact((i * j) * p, p);
    IntRoundTrip(fmt, i * j);
  }

  lemma MulCommutative(fmt: Format, a: Fixed, b: Fixed)
    requires fmt.Valid()
    ensures Mul(fmt, a, b) == Mul(fmt, b, a)
  {
    assert a.v * b.v == b.v * a.v;
  }

  /** Multiplying by one (raw 2^fraction) changes nothing. */
  lemma MulOne(fmt: Format, a: Fixed)
    requires fmt.Valid() && IsValue(fmt, a)
    requires InRange(fmt, Pow2(fmt.frac))
    ensures Mul(fmt, a, Fixed(Pow2(fmt.frac))) == a
  {
    MulDivExact(a.v, Pow2(fmt.frac));
  }

  // ---------------------------------------------------------------------
  // Division.

  /** The dividend of both divisions, `a.v << fraction` in the
      double-width type, where it always fits. */
  function Scaled(fmt: Format, a: Fixed): (x: int)
    ensures x % Pow2(fmt.frac) == 0 && x / Pow2(fmt.frac) == a.v
  {
    MulDivExact(a.v, Pow2(fmt.frac));
    a.v * Pow2(fmt.frac)
  }

  /** `fast_division`, which `operator/` calls: the scaled dividend is
      divided by `b.v` with C++ division (truncating toward zero) and the
      quotient stored into `T`. Dividing by zero is undefined. When the
      quotient fits, it is the largest magnitude not overshooting the exact
      quotient, with the sign of the exact quotient. */
  function FastDivision(fmt: Format, a: Fixed, b: Fixed): (r: Fixed)
    requires b.v != 0
    ensures IsValue(fmt, r)
    ensures Congruent(TruncDiv(Scaled(fmt, a), b.v), r.v, fmt.Modulus())
    ensures InRange(fmt, TruncDiv(Scaled(fmt, a), b.v)) ==>
      && Abs(r.v) * Abs(b.v) <= Abs(Scaled(fmt, a)) < Abs(r.v) * Abs(b.v) + Abs(b.v)
      && (r.v != 0 ==> ((r.v < 0) <==> ((a.v < 0) != (b.v < 0))))
  {
    var q := TruncDiv(Scaled(fmt, a), b.v);
    DivBounds(Abs(Scaled(fmt, a)), Abs(b.v));
    assert (Scaled(fmt, a) < 0) <==> (a.v < 0);
    FromBits(fmt, q)
  }

  /** `operator/` is `fast_division`. */
  function Div(fmt: Format, a: Fixed, b: Fixed): (r: Fixed)
    requires b.v != 0
    ensures r == FastDivision(fmt, a, b)
    ensures Congruent(TruncDiv(Scaled(fmt, a), b.v), r.v, fmt.Modulus())
  {
    FastDivision(fmt, a, b)
  }

  /** A nonzero value divided by itself is exactly one, raw 2^fraction,
      whenever one is representable. */
  lemma DivSelf(fmt: Format, a: Fixed)
    requires a.v != 0
    requires InRange(fmt, Pow2(fmt.frac))
    ensures Div(fmt, a, a).v == Pow2(fmt.frac)
  {
    var p := Pow2(fmt.frac);
    assert Scaled(fmt, a) == p * a.v;
    TruncDivExact(p, a.v);
  }

  /** Whole numbers divide exactly when the divisor divides the dividend. */
  lemma DivIntegers(fmt: Format, j: int, k: int)
    requires fmt.Valid()
    requires j != 0
    requires MinimumAsInt(fmt) <= k * j <= MaxAsInt(fmt)
    requires MinimumAsInt(fmt) <= j <= MaxAsInt(fmt)
    requires MinimumAsInt(fmt) <= k <= MaxAsInt(fmt)
    ensures FromInt(fmt, j).v != 0
    ensures Div(fmt, FromInt(fmt, k * j), FromInt(fmt, j)) == FromInt(fmt, k)
  {
    var p := Pow2(fmt.frac);
    var a, b, c := FromInt(fmt, k * j), FromInt(fmt, j), FromInt(fmt, k);
    assert b.v == j * p;
    MultipleInRange(j, p);
    assert a.v == (k * j) * p;
    assert c.v == k * p;
    ExactQuotient(k, j, p, Scaled(fmt, a), b.v);
    DivByValue(fmt, a, b, c.v);
    assert Div(fmt, a, b).v == c.v;
  }

  lemma DivByValue(fmt: Format, a: Fixed, b: Fixed, q: int)
    requires b.v != 0 && TruncDiv(Scaled(fmt, a), b.v) == q && InRange(fmt, q)
    ensures Div(fmt, a, b) == Fixed(q)
  {
  }

  lemma ExactQuotient(k: int, j: int, p: int, x: int, y: int)
    requires j != 0 && p > 0
    requires x == ((k * j) * p) * p && y == j * p
    ensures y != 0 && TruncDiv(x, y) == k * p
  {
    MulShuffle(k, p, j, p);
    MulAssoc(k * j, p, p);
    TruncDivExact(k * p, j * p);
  }

  // ---------------------------------------------------------------------
  // Correctly rounded division.

  /** The signed quotient of `correctly_rounded_division` before it is
      stored: half the divisor (C++ `y/2`) is added to the dividend when
      the operands have the same sign and subtracted otherwise, and the
      sum is divided with C++ division. The magnitude is the exact
      quotient's magnitude rounded to nearest with halves away from zero,
      and the sign is the exact quotient's. */
  function RoundedQuotient(x: int, y: int): (q: int)
    requires y != 0
    ensures Abs(q) == (Abs(x) + Abs(y) / 2) / Abs(y)
    ensures q != 0 ==> ((q < 0) <==> ((x < 0) != (y < 0)))
  {
    RoundedNumerator(x, y);
    if (x < 0) != (y < 0) then TruncDiv(x - TruncDiv(y, 2), y) else TruncDiv(x + TruncDiv(y, 2), y)
  }

  lemma RoundedNumerator(x: int, y: int)
    requires y != 0
    ensures var n := if (x < 0) != (y < 0) then x - TruncDiv(y, 2) else x + TruncDiv(y, 2);
            Abs(n) == Abs(x) + Abs(y) / 2 && (n != 0 ==> ((n < 0) <==> (x < 0)))
  {
    DivNonneg(Abs(y), 2);
  }

  /** The rounded quotient is within half a divisor of the dividend. */
  lemma RoundedQuotientError(x: int, y: int)
    requires y != 0
    ensures 2 * Abs(x - RoundedQuotient(x, y) * y) <= Abs(y)
  {
    var q := RoundedQuotient(x, y);
    var m, ay, h := Abs(q), Abs(y), Abs(y) / 2;
    AbsMul(q, y);
    assert Abs(x - q * y) == Abs(Abs(x) - m * ay);
    DivBounds(Abs(x) + h, ay);
    DivBounds(ay, 2);
  }

  /** The rounded quotient is at most one away from the truncated one. */
  lemma RoundedNearTruncated(x: int, y: int)
    requires y != 0
    ensures Abs(RoundedQuotient(x, y) - TruncDiv(x, y)) <= 1
  {
    var ay, h := Abs(y), Abs(y) / 2;
    var m, t := Abs(RoundedQuotient(x, y)), Abs(TruncDiv(x, y));
    DivBounds(Abs(x) + h, ay);
    DivBounds(Abs(x), ay);
    DivBounds(ay, 2);
    MulMono(m, t, ay);
    MulMono(t + 1, m, ay);
    MulSucc(t, ay);
    assert t <= m <= t + 1;
  }

  /** `correctly_rounded_division` as the signed branches compute it, and
      as the unsigned branches evidently intend: the scaled dividend divided
      by `b.v`, rounded to nearest with halves away from zero, stored into
      `T`. When the quotient fits, the result times `b.v` is within half of
      `b.v` of the scaled dividend and has the sign of the exact quotient. */
  function CorrectlyRoundedDivision(fmt: Format, a: Fixed, b: Fixed): (r: Fixed)
    requires b.v != 0
    ensures IsValue(fmt, r)
    ensures Congruent(RoundedQuotient(Scaled(fmt, a), b.v), r.v, fmt.Modulus())
    ensures InRange(fmt, RoundedQuotient(Scaled(fmt, a), b.v)) ==>
      && 2 * Abs(Scaled(fmt, a) - r.v * b.v) <= Abs(b.v)
      && (r.v != 0 ==> ((r.v < 0) <==> ((a.v < 0) != (b.v < 0))))
  {
    RoundedQuotientError(Scaled(fmt, a), b.v);
    assert (Scaled(fmt, a) < 0) <==> (a.v < 0);
    FromBits(fmt, RoundedQuotient(Scaled(fmt, a), b.v))
  }

  /** Rounded and truncating division differ by at most one raw unit when
      neither quotient wraps. */
  lemma RoundedNearFastDivision(fmt: Format, a: Fixed, b: Fixed)
    requires b.v != 0
    requires InRange(fmt, RoundedQuotient(Scaled(fmt, a), b.v))
    requires InRange(fmt, TruncDiv(Scaled(fmt, a), b.v))
    ensures Abs(CorrectlyRoundedDivision(fmt, a, b).v - FastDivision(fmt, a, b).v) <= 1
  {
    RoundedNearTruncated(Scaled(fmt, a), b.v);
  }

  /** The intermediate width of both divisions and of multiplication. */
  function WideWidth(fmt: Format): nat {
    if fmt.width <= 16 then 32 else 64
  }

  /** The scaled dividend `a.v << fraction` fits the signed double-width
      type. */
  lemma ScaledFits(fmt: Format, a: Fixed)
    requires fmt.Valid() && IsValue(fmt, a)
    ensures -Pow2(WideWidth(fmt) - 1) <= Scaled(fmt, a) < Pow2(WideWidth(fmt) - 1)
  {
    var w: nat := fmt.width;
    var h := Pow2(w - 1);
    Pow2Monotone(fmt.frac, w - 1);
    assert Pow2(w) == 2 * h;
    ProductBound(a.v, Pow2(fmt.frac), h);
    Pow2Add(w - 1, w - 1);
    Pow2Monotone(2 * w - 2, WideWidth(fmt) - 2);
    assert Pow2(WideWidth(fmt) - 1) == 2 * Pow2(WideWidth(fmt) - 2);
  }

  /** In an unsigned format a dividend below half the divisor wraps, in
      the unsigned double-width type, to itself plus 2^(double width). */
  lemma WideBelowDivisor(fmt: Format, a: Fixed, b: Fixed)
    requires fmt.Valid() && !fmt.signed && IsValue(fmt, a) && IsValue(fmt, b) && b.v != 0
    ensures Scaled(fmt, a) < b.v / 2 ==>
      Reduce(0, Pow2(WideWidth(fmt)), Scaled(fmt, a) - b.v / 2) ==
      Scaled(fmt, a) - b.v / 2 + Pow2(WideWidth(fmt))
  {
    var d, m := Scaled(fmt, a) - b.v / 2, Pow2(WideWidth(fmt));
    if d < 0 {
      MulLe(0, a.v, Pow2(fmt.frac));
      Pow2Monotone(fmt.width, WideWidth(fmt));
      assert 0 <= d + m < m;
      CongruentByMultiple(d, d + m, -1, m);
      ReduceCongruent(0, m, d, d + m);
    }
  }

  lemma ProductBound(x: int, p: int, h: int)
    requires -h <= x < 2 * h && 0 < p <= h
    ensures -(h * h) <= x * p < 2 * (h * h)
  {
    if x > 0 {
      MulLe(p, h, x);
      MulMono(x, 2 * h, h);
    } else if x < 0 {
      if p < h {
        MulLe(x, 0, h - p);
        assert x * h - x * p == x * (h - p);
      }
      MulLe(-h, x, h);
    }
  }

  /** `correctly_rounded_division` exactly as written. The unsigned
      branches compute `(x - y/2)/y` in the unsigned double-width type:
      half the divisor is subtracted, not added, and the difference wraps
      when it is negative. */
  function CorrectlyRoundedDivisionAsWritten(fmt: Format, a: Fixed, b: Fixed): (r: Fixed)
    requires fmt.Valid() && IsValue(fmt, a) && IsValue(fmt, b) && b.v != 0
    ensures IsValue(fmt, r)
    ensures fmt.signed ==> r == CorrectlyRoundedDivision(fmt, a, b)
    ensures !fmt.signed && b.v / 2 <= Scaled(fmt, a) ==>
      Congruent((Scaled(fmt, a) - b.v / 2) / b.v, r.v, fmt.Modulus())
    ensures !fmt.signed && b.v / 2 <= Scaled(fmt, a) && InRange(fmt, (Scaled(fmt, a) - b.v / 2) / b.v) ==>
      r.v * b.v <= Scaled(fmt, a) - b.v / 2 < r.v * b.v + b.v
    ensures !fmt.signed && Scaled(fmt, a) < b.v / 2 ==>
      Congruent((Scaled(fmt, a) - b.v / 2 + Pow2(WideWidth(fmt))) / b.v, r.v, fmt.Modulus())
  {
    if fmt.signed then
      CorrectlyRoundedDivision(fmt, a, b)
    else
      var x, y := Scaled(fmt, a), b.v;
      var n := Reduce(0, Pow2(WideWidth(fmt)), x - y / 2);
      ScaledFits(fmt, a);
      DivBounds(n, y);
      WideBelowDivisor(fmt, a, b);
      FromBits(fmt, n / y)
  }

  /** In an unsigned format, an exact quotient k of a dividend by a divisor
      of at least two raw units comes out as k - 1 from the division as
      written. */
  lemma UnsignedExactDivisionAsWritten(fmt: Format, a: Fixed, b: Fixed, k: int)
    requires fmt.Valid() && !fmt.signed && IsValue(fmt, a) && IsValue(fmt, b)
    requires b.v >= 2 && k >= 1 && InRange(fmt, k)
    requires Scaled(fmt, a) == k * b.v
    ensures CorrectlyRoundedDivisionAsWritten(fmt, a, b).v == k - 1
  {
    var x, y, h := Scaled(fmt, a), b.v, b.v / 2;
    MulSucc(k - 1, y);
    DivUnique(x - h, k - 1, y);
    assert InRange(fmt, k - 1);
    MulLe(0, k - 1, y);
    var wide := Pow2(WideWidth(fmt));
    assert x - h < wide by {
      ScaledFits(fmt, a);
      Pow2Monotone(WideWidth(fmt) - 1, WideWidth(fmt));
    }
    assert 0 <= x - h;
    assert Reduce(0, wide, x - h) == x - h;
  }

  /** The intended rounding returns an exact quotient k as it is. */
  lemma ExactDivisionRounded(fmt: Format, a: Fixed, b: Fixed, k: int)
    requires b.v > 0 && k >= 0 && InRange(fmt, k)
    requires Scaled(fmt, a) == k * b.v
    ensures CorrectlyRoundedDivision(fmt, a, b).v == k
  {
    var x, y, h := Scaled(fmt, a), b.v, b.v / 2;
    MulLe(0, k, y);
    assert Abs(x) == x && Abs(y) == y;
    DivUnique(x + h, k, y);
  }

  /** One divided by one in `fixed<uint8_t, 4>`: raw 16 over raw 16 gives
      raw 15 (0.9375) as written, and raw 16 (1.0) as intended. */
  lemma UnsignedOneOverOne()
    ensures CorrectlyRoundedDivisionAsWritten(Format(8, false, 4), Fixed(16), Fixed(16)) == Fixed(15)
    ensures CorrectlyRoundedDivision(Format(8, false, 4), Fixed(16), Fixed(16)) == Fixed(16)
  {
    var fmt := Format(8, false, 4);
    Pow2Values();
    assert Pow2(4) == 16;
    UnsignedExactDivisionAsWritten(fmt, Fixed(16), Fixed(16), 16);
    ExactDivisionRounded(fmt, Fixed(16), Fixed(16), 16);
  }

  /** Zero divided by one in `fixed<uint8_t, 4>`: as written, 0 - 8 wraps in
      `uint32_t` to 2^32 - 8, the quotient 2^28 - 1 is stored into `uint8_t`
      as raw 255 (15.9375); the intended rounding gives 0. */
  lemma UnsignedZeroOverOne()
    ensures CorrectlyRoundedDivisionAsWritten(Format(8, false, 4), Fixed(0), Fixed(16)) == Fixed(255)
    ensures CorrectlyRoundedDivision(Format(8, false, 4), Fixed(0), Fixed(16)) == Fixed(0)
  {
    var fmt := Format(8, false, 4);
    Pow2Values();
    assert Pow2(4) == 16;
    assert Scaled(fmt, Fixed(0)) == 0;
    assert (0 - 8 + 4294967296) / 16 == 268435455;
    var r := CorrectlyRoundedDivisionAsWritten(fmt, Fixed(0), Fixed(16));
    assert Congruent(268435455, r.v, 256);
    CongruentByMultiple(268435455, 255, 1048575, 256);
    CongruentSymmetric(268435455, 255, 256);
    CongruentTransitive(255, 268435455, r.v, 256);
    ReduceCongruent(0, 256, 255, r.v);
    ExactDivisionRounded(fmt, Fixed(0), Fixed(16), 0);
  }

  // ---------------------------------------------------------------------
  // abs, ordering and closeness.

  /** `abs(a)`: `std::abs` of the raw value, stored into `T`. */
  function FixedAbs(fmt: Format, a: Fixed): (r: Fixed)
    ensures IsValue(fmt, r)
    ensures InRange(fmt, Abs(a.v)) ==> r.v == Abs(a.v)
  {
    FromBits(fmt, Abs(a.v))
  }

  /** Every value but the signed minimum has its magnitude as `abs`; the
      signed minimum stays where it is. */
  lemma FixedAbsValue(fmt: Format, a: Fixed)
    requires fmt.Valid() && IsValue(fmt, a)
    ensures a.v != fmt.Lo() || !fmt.signed ==> FixedAbs(fmt, a).v == Abs(a.v)
    ensures fmt.signed && a.v == fmt.Lo() ==> FixedAbs(fmt, a) == a
  {
    var m := fmt.Modulus();
    if fmt.signed && a.v == fmt.Lo() {
      assert Abs(a.v) == a.v + m;
      CongruentByMultiple(Abs(a.v), a.v, 1, m);
      WrapCongruent(fmt, Abs(a.v), a.v);
    }
  }

  /** `abs` agrees with negation on negative values and with the identity
      on the others. */
  lemma FixedAbsNeg(fmt: Format, a: Fixed)
    requires IsValue(fmt, a)
    ensures FixedAbs(fmt, a) == if a.v < 0 then Neg(fmt, a) else a
  {
  }

  /** `std::strong_ordering`. */
  datatype Ordering = Less | Equal | Greater

  function Flip(o: Ordering): Ordering {
    match o
    case Less => Greater
    case Equal => Equal
    case Greater => Less
  }

  /** `operator<=>`: the raw values are compared. Exactly one of less,
      equal and greater holds, as the raw values order. */
  function Compare(a: Fixed, b: Fixed): (r: Ordering)
    ensures r == Less <==> a.v < b.v
    ensures r == Equal <==> a.v == b.v
    ensures r == Greater <==> a.v > b.v
  {
    if a.v < b.v then Less else if a.v == b.v then Equal else Greater
  }

  /** `operator==`: equal raw values, hence equal values. */
  function Equals(a: Fixed, b: Fixed): (r: bool)
    ensures r <==> a == b
  {
    a.v == b.v
  }

  lemma CompareFlip(a: Fixed, b: Fixed)
    ensures Compare(b, a) == Flip(Compare(a, b))
  {
  }

  lemma CompareTransitive(a: Fixed, b: Fixed, c: Fixed)
    requires Compare(a, b) == Less && Compare(b, c) == Less
    ensures Compare(a, c) == Less
  {
  }

  lemma EqualsAgreesWithCompare(a: Fixed, b: Fixed)
    ensures Equals(a, b) <==> Compare(a, b) == Equal
  {
  }

  /** `same_up_to_one_bit`: the raw values differ by at most one. */
  predicate SameUpToOneBit(a: Fixed, b: Fixed)
    ensures SameUpToOneBit(a, b) <==> a.v - 1 <= b.v <= a.v + 1
  {
    Abs(a.v - b.v) <= 1
  }

  /** `1 << n` in a 32-bit `int`: shifting into the sign bit gives the
      most negative `int`; larger or negative shifts are undefined. */
  function ShiftOne(n: int): (r: int)
    requires 0 <= n < 32
    ensures n < 31 ==> r == Pow2(n)
    ensures n == 31 ==> r < 0
  {
    if n < 31 then Pow2(n) else -Pow2(31)
  }

  /** `same_up_to_n_bits`: the raw values differ by at most `1 << n`. */
  predicate SameUpToNBits(a: Fixed, b: Fixed, n: int)
    requires 0 <= n < 32
    ensures n < 31 ==> (SameUpToNBits(a, b, n) <==> a.v - Pow2(n) <= b.v <= a.v + Pow2(n))
    ensures n == 31 ==> !SameUpToNBits(a, b, n)
  {
    Abs(a.v - b.v) <= ShiftOne(n)
  }

  lemma SameUpToOneBitIsZeroBits(a: Fixed, b: Fixed)
    ensures SameUpToOneBit(a, b) == SameUpToNBits(a, b, 0)
  {
  }

  lemma SameUpToBitsSymmetric(a: Fixed, b: Fixed, n: int)
    requires 0 <= n < 32
    ensures SameUpToOneBit(a, b) == SameUpToOneBit(b, a)
    ensures SameUpToNBits(a, b, n) == SameUpToNBits(b, a, n)
  {
  }

  /** Closeness to within 2^n implies closeness to within 2^m for m >= n,
      up to 30; at 31 the bound is negative and nothing is close. */
  lemma SameUpToBitsMonotone(a: Fixed, b: Fixed, n: int, m: int)
    requires 0 <= n <= m < 31
    ensures SameUpToNBits(a, b, n) ==> SameUpToNBits(a, b, m)
    ensures !SameUpToNBits(a, b, 31)
  {
    Pow2Monotone(n, m);
  }

  /** The cast to the unsigned type of the same width. */
  function Unsigned(fmt: Format, x: int): (r: nat)
    ensures r < fmt.Modulus()
    ensures Congruent(x, r, fmt.Modulus())
    ensures 0 <= x < fmt.Modulus() ==> r == x
  {
    Reduce(0, fmt.Modulus(), x)
  }

  /** `std::countl_zero` of the unsigned cast of a raw value: the width
      less the bit length; the full width for zero. */
  function LeadingZeros(fmt: Format, x: int): (r: nat)
    ensures r <= fmt.width
    ensures Unsigned(fmt, x) < Pow2(fmt.width - r)
    ensures r < fmt.width ==> Pow2(fmt.width - r - 1) <= Unsigned(fmt, x)
  {
    BitLengthBound(Unsigned(fmt, x), fmt.width);
    fmt.width - BitLength(Unsigned(fmt, x))
  }

  /** `same_top_most_bit`: equal leading-zero counts. */
  predicate SameTopMostBit(fmt: Format, a: Fixed, b: Fixed)
    ensures SameTopMostBit(fmt, a, b) <==> BitLength(Unsigned(fmt, a.v)) == BitLength(Unsigned(fmt, b.v))
  {
    LeadingZeros(fmt, a.v) == LeadingZeros(fmt, b.v)
  }

  /** Two values have the same top-most bit exactly when their unsigned
      casts lie in the same interval [2^k, 2^(k+1)), or are both zero. */
  lemma SameTopMostBitInterval(fmt: Format, a: Fixed, b: Fixed, k: nat)
    requires Pow2(k) <= Unsigned(fmt, a.v) < Pow2(k + 1)
    ensures SameTopMostBit(fmt, a, b) <==> Pow2(k) <= Unsigned(fmt, b.v) < Pow2(k + 1)
  {
    BitLengthUnique(Unsigned(fmt, a.v), k);
    var ub := Unsigned(fmt, b.v);
    if ub > 0 {
      var r := BitLength(ub);
      if Pow2(k) <= ub < Pow2(k + 1) {
        BitLengthUnique(ub, k);
      } else {
        Pow2Order(k, r - 1);
        Pow2Order(r, k + 1);
      }
    }
  }

  lemma SameTopMostBitZero(fmt: Format, a: Fixed, b: Fixed)
    requires Unsigned(fmt, a.v) == 0
    ensures SameTopMostBit(fmt, a, b) <==> Unsigned(fmt, b.v) == 0
  {
  }

  // ---------------------------------------------------------------------
  // Helper operands and compound assignment.

  /** The right-hand side of a mixed overload: a `fixed` of the same type or
      a literal helper. */
  datatype Operand = Value(x: Fixed) | Literal(h: Helper)

  predicate OperandValid(fmt: Format, o: Operand) {
    fmt.Valid() && (o.Literal? ==> o.h.Valid())
  }

  /** The helper overloads first build a temporary `fixed` with the helper
      constructor; a `fixed` operand is used as it is. */
  function Materialise(fmt: Format, o: Operand): (r: Fixed)
    requires OperandValid(fmt, o)
    ensures o.Literal? ==> IsValue(fmt, r)
    ensures o.Value? ==> r == o.x
  {
    match o
    case Value(x) => x
    case Literal(h) => FromHelper(fmt, h)
  }

  /** The four arithmetic operators. */
  datatype Op = Plus | Minus | Times | Divide

  function Apply(fmt: Format, op: Op, a: Fixed, b: Fixed): (r: Fixed)
    requires fmt.Valid() && (op == Divide ==> b.v != 0)
    ensures IsValue(fmt, r)
    ensures op == Plus ==> Congruent(a.v + b.v, r.v, fmt.Modulus())
    ensures op == Minus ==> Congruent(a.v - b.v, r.v, fmt.Modulus())
    ensures op == Times ==> Congruent((a.v * b.v) / Pow2(fmt.frac), r.v, fmt.Modulus())
    ensures op == Divide ==> Congruent(TruncDiv(Scaled(fmt, a), b.v), r.v, fmt.Modulus())
  {
    match op
    case Plus => Add(fmt, a, b)
    case Minus => Sub(fmt, a, b)
    case Times => Mul(fmt, a, b)
    case Divide => Div(fmt, a, b)
  }

  /** Every overload taking a helper on either side: both sides are
      materialised and the same-type operator applied. */
  function ApplyMixed(fmt: Format, op: Op, x: Operand, y: Operand): (r: Fixed)
    requires OperandValid(fmt, x) && OperandValid(fmt, y)
    requires op == Divide ==> Materialise(fmt, y).v != 0
    ensures IsValue(fmt, r)
    ensures x.Value? && y.Value? ==> r == Apply(fmt, op, x.x, y.x)
  {
    Apply(fmt, op, Materialise(fmt, x), Materialise(fmt, y))
  }

  /** The ordering overloads with a helper on either side. */
  function CompareMixed(fmt: Format, x: Operand, y: Operand): (r: Ordering)
    requires OperandValid(fmt, x) && OperandValid(fmt, y)
    ensures x.Value? && y.Value? ==> r == Compare(x.x, y.x)
  {
    Compare(Materialise(fmt, x), Materialise(fmt, y))
  }

  /** A literal added on the left or on the right gives the same value, and
      likewise for multiplication. */
  lemma MixedCommutes(fmt: Format, a: Fixed, h: Helper)
    requires fmt.Valid() && h.Valid()
    ensures ApplyMixed(fmt, Plus, Value(a), Literal(h)) == ApplyMixed(fmt, Plus, Literal(h), Value(a))
    ensures ApplyMixed(fmt, Times, Value(a), Literal(h)) == ApplyMixed(fmt, Times, Literal(h), Value(a))
  {
    AddCommutative(fmt, a, FromHelper(fmt, h));
    MulCommutative(fmt, a, FromHelper(fmt, h));
  }

  /** Comparing with a literal on the other side flips the ordering. */
  lemma CompareMixedFlip(fmt: Format, a: Fixed, h: Helper)
    requires fmt.Valid() && h.Valid()
    ensures CompareMixed(fmt, Literal(h), Value(a)) == Flip(CompareMixed(fmt, Value(a), Literal(h)))
  {
    CompareFlip(a, FromHelper(fmt, h));
  }

  /** A `fixed` variable: the target of assignment and of the compound
      assignment operators, which update its raw value in place. */
  class FixedRef {
    const fmt: Format
    var value: Fixed

    predicate Valid()
      reads this
    {
      fmt.Valid() && IsValue(fmt, value)
    }

    constructor (fmt: Format, value: Fixed)
      requires fmt.Valid() && IsValue(fmt, value)
      ensures Valid()
      ensures this.fmt == fmt && this.value == value
    {
      this.fmt := fmt;
      this.value := value;
    }

    /** The copy assignment `operator=(const fixed&)`. */
    method Assign(other: Fixed)
      requires Valid() && IsValue(fmt, other)
      modifies this
      ensures Valid() && value == other
    {
      value := other;
    }

    /** `operator=(int)`: the integer shifted into place. */
    method AssignInt(i: int)
      requires Valid()
      modifies this
      ensures Valid() && value == FromInt(fmt, i)
      ensures MinimumAsInt(fmt) <= i <= MaxAsInt(fmt) ==> ToInt(fmt, value) == i
    {
      value := FromInt(fmt, i);
      if MinimumAsInt(fmt) <= i <= MaxAsInt(fmt) {
        IntRoundTrip(fmt, i);
      }
    }

    /** `a += b` for a `fixed` or a helper `b`. */
    method AddAssign(b: Operand)
      requires Valid() && OperandValid(fmt, b)
      modifies this
      ensures Valid()
      ensures value == Add(fmt, old(value), Materialise(fmt, b))
    {
      value := ApplyMixed(fmt, Plus, Value(value), b);
    }

    /** `a -= b`; `a += b` followed by `a -= b` restores `a`. */
    method SubAssign(b: Operand)
      requires Valid() && OperandValid(fmt, b)
      modifies this
      ensures Valid()
      ensures value == Sub(fmt, old(value), Materialise(fmt, b))
      ensures value == Add(fmt, old(value), Neg(fmt, Materialise(fmt, b)))
    {
      value := ApplyMixed(fmt, Minus, Value(value), b);
      SubIsAddNeg(fmt, old(value), Materialise(fmt, b));
    }

    /** `a *= b`. */
    method MulAssign(b: Operand)
      requires Valid() && OperandValid(fmt, b)
      modifies this
      ensures Valid()
      ensures value == Mul(fmt, old(value), Materialise(fmt, b))
    {
      value := ApplyMixed(fmt, Times, Value(value), b);
    }

    /** `a /= b`, for a nonzero divisor. */
    method DivAssign(b: Operand)
      requires Valid() && OperandValid(fmt, b) && Materialise(fmt, b).v != 0
      modifies this
      ensures Valid()
      ensures value == Div(fmt, old(value), Materialise(fmt, b))
    {
      value := ApplyMixed(fmt, Divide, Value(value), b);
    }
  }

  /** Adding and then subtracting the same operand in place restores the
      variable. */
  method AddThenSubRestores(r: FixedRef, b: Operand)
    requires r.Valid() && OperandValid(r.fmt, b)
    modifies r
    ensures r.Valid() && r.value == old(r.value)
  {
    r.AddAssign(b);
    r.SubAssign(b);
    SubUndoesAdd(r.fmt, old(r.value), Materialise(r.fmt, b));
  }
}
