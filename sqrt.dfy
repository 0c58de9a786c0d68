/** The square root of `fixed<T, fraction>`. For a raw value v the raw value
    of the exact root is sqrt(v * 2^fraction), so every stage works on the
    scaled radicand X = v << fraction: a power-of-two guess from the highest
    set bit, one averaging step, four Babylonian (Newton) steps with the
    truncating division, and a last step with the rounding division. */
module Sqrt {
  import opened Arith
  import opened FixedType
  import opened FixedMath

  // ---------------------------------------------------------------------
  // The integer Newton step and what it guarantees.

  /** One Babylonian step for the integer square root of X from guess y:
      the average of y and X / y, both rounded down. */
  function NewtonStep(x: int, y: int): (r: int)
    requires x >= 0 && y > 0
    ensures r >= 0
  {
    DivNonneg(x, y);
    (y + x / y) / 2
  }

  lemma AmGm(a: int, b: int)
    ensures 4 * (a * b) <= (a + b) * (a + b)
  {
    assert (a + b) * (a + b) - 4 * (a * b) == (a - b) * (a - b);
  }

  lemma SquareMono(a: int, b: int)
    requires 0 <= a <= b
    ensures a * a <= b * b
  {
    if a > 0 {
      MulLe(a, b, a);
      MulLe(a, b, b);
      assert a * b == b * a;
    }
  }

  /** A Newton step never lands below the integer square root:
      (r + 1)^2 > X for every positive guess. */
  lemma NewtonStepNotBelowRoot(x: int, y: int)
    requires x >= 0 && y > 0
    ensures var r := NewtonStep(x, y); x < (r + 1) * (r + 1)
  {
    var q := x / y;
    var r := NewtonStep(x, y);
    DivNonneg(x, y);
    DivBounds(x, y);
    DivBounds(y + q, 2);
    var s, t := 2 * r + 2, r + 1;
    assert y + q + 1 <= s;
    SquareMono(y + q + 1, s);
    AmGm(y, q + 1);
    assert x < y * (q + 1) by {
      assert y * (q + 1) == q * y + y;
    }
    assert s * s == 4 * (t * t) by {
      assert s == 2 * t;
    }
    assert 4 * x < 4 * (t * t);
  }

  /** Above the root, a Newton step strictly decreases the guess. */
  lemma NewtonStepDecreases(x: int, y: int)
    requires x >= 0 && y > 0 && x < y * y
    ensures NewtonStep(x, y) < y
  {
    var q := x / y;
    DivBounds(x, y);
    MulMono(y, q, y);
    assert q * y == y * q;
  }

  /** At the integer square root, a Newton step stays there or moves up by
      one. */
  lemma NewtonStepNearRoot(x: int, y: int)
    requires y > 0 && y * y <= x < (y + 1) * (y + 1)
    ensures y <= NewtonStep(x, y) <= y + 1
  {
    var q := x / y;
    DivBounds(x, y);
    MulMono(q, y, y);
    MulMono(y + 2, q, y);
    assert (y + 1) * (y + 1) == (y + 2) * y + 1;
    assert y * y == y * y;
  }

  // ---------------------------------------------------------------------
  // The initial guesses.

  /** `highest_set_bit`: width - countl_zero - 1, that is the bit length of
      the unsigned cast less one; -1 for zero. */
  function HighestSetBit(fmt: Format, x: Fixed): (h: int)
    ensures -1 <= h < fmt.width
    ensures Unsigned(fmt, x.v) > 0 ==> h >= 0 && Pow2(h) <= Unsigned(fmt, x.v) < Pow2(h + 1)
  {
    fmt.width - LeadingZeros(fmt, x.v) - 1
  }

  /** The exponent of the guess, `(highest_set_bit + fraction) / 2`; the
      sum is never negative, so C++ division is floor division here. */
  function GuessExponent(fmt: Format, x: Fixed): (e: nat)
    requires fmt.Valid()
    ensures 2 * e <= HighestSetBit(fmt, x) + fmt.frac <= 2 * e + 1
    ensures e < 32
  {
    (HighestSetBit(fmt, x) + fmt.frac) / 2
  }

  /** `approx_sqrt`: `1 << exponent` in an `int`, stored into `T`. */
  function ApproxSqrt(fmt: Format, x: Fixed): (r: Fixed)
    requires fmt.Valid()
    ensures IsValue(fmt, r)
  {
    FromBits(fmt, ShiftOne(GuessExponent(fmt, x)))
  }

  /** The guess is 2^exponent whenever that is representable. */
  lemma ApproxSqrtValue(fmt: Format, x: Fixed)
    requires fmt.Valid()
    requires InRange(fmt, Pow2(GuessExponent(fmt, x)))
    ensures ApproxSqrt(fmt, x).v == Pow2(GuessExponent(fmt, x))
  {
    if GuessExponent(fmt, x) == 31 {
      Pow2Order(fmt.width, 31);
      CongruentByMultiple(Pow2(31), -Pow2(31), 1, fmt.Modulus());
      WrapCongruent(fmt, Pow2(31), -Pow2(31));
    }
  }

  /** For positive x whose guess is representable, the guess g is a power
      of two with g^2 <= X < 4 g^2: it is within a factor two of the exact
      root. */
  lemma ApproxSqrtBracket(fmt: Format, x: Fixed)
    requires fmt.Valid() && IsValue(fmt, x) && x.v > 0
    requires InRange(fmt, Pow2(GuessExponent(fmt, x)))
    ensures var g := ApproxSqrt(fmt, x).v;
            && g == Pow2(GuessExponent(fmt, x))
            && g * g <= Scaled(fmt, x) < 4 * (g * g)
  {
    ApproxSqrtValue(fmt, x);
    assert Unsigned(fmt, x.v) == x.v by {
      Pow2Monotone(fmt.width - 1, fmt.width);
    }
    GuessBracket(x.v, HighestSetBit(fmt, x), fmt.frac, GuessExponent(fmt, x));
  }

  lemma GuessBracket(v: int, h: nat, f: nat, e: nat)
    requires Pow2(h) <= v < Pow2(h + 1)
    requires 2 * e <= h + f <= 2 * e + 1
    ensures Pow2(e) * Pow2(e) <= v * Pow2(f) < 4 * (Pow2(e) * Pow2(e))
  {
    Pow2Add(e, e);
    Pow2Add(h, f);
    Pow2Add(h + 1, f);
    MulLe(Pow2(h), v, Pow2(f));
    MulMono(v, Pow2(h + 1), Pow2(f));
    Pow2Monotone(e + e, h + f);
    Pow2Monotone(h + f + 1, e + e + 2);
    Pow2Add(e + e, 2);
    assert Pow2(2) == 4;
  }

  /** `shift_amount`: how far x.v is shifted so that it becomes X / g. */
  function ShiftAmount(fmt: Format, x: Fixed): (s: int)
    requires fmt.Valid()
    ensures s >= 0 ==> Pow2(GuessExponent(fmt, x)) == Pow2(fmt.frac) * Pow2(s)
    ensures s < 0 ==> Pow2(fmt.frac) == Pow2(GuessExponent(fmt, x)) * Pow2(-s)
  {
    var e := GuessExponent(fmt, x);
    if e >= fmt.frac then Pow2Add(fmt.frac, e - fmt.frac); e - fmt.frac
    else Pow2Add(e, fmt.frac - e); e - fmt.frac
  }

  /** x.v shifted right by a non-negative amount (toward minus infinity)
      or left by the negated amount, stored back into `T`. */
  function Shifted(fmt: Format, x: Fixed): (r: Fixed)
    requires fmt.Valid()
    ensures IsValue(fmt, r)
  {
    var s := ShiftAmount(fmt, x);
    if s >= 0 then FromBits(fmt, x.v / Pow2(s)) else FromBits(fmt, x.v * Pow2(-s))
  }

  /** The shifted radicand is X / 2^exponent, when it fits. */
  lemma ShiftedIsQuotient(fmt: Format, x: Fixed)
    requires fmt.Valid()
    requires InRange(fmt, Scaled(fmt, x) / Pow2(GuessExponent(fmt, x)))
    ensures Shifted(fmt, x).v == Scaled(fmt, x) / Pow2(GuessExponent(fmt, x))
  {
    var e, f, s := GuessExponent(fmt, x), fmt.frac, ShiftAmount(fmt, x);
    var p := Pow2(f);
    if s >= 0 {
      MulDivExact(x.v, p);
      DivDiv(x.v * p, f, s);
    } else {
      Pow2Add(f - e, e);
      MulAssoc(x.v, Pow2(f - e), Pow2(e));
      MulDivExact(x.v * Pow2(f - e), Pow2(e));
    }
  }

  /** What `better_approx_sqrt` returns: the guess plus the shifted
      radicand, halved by an arithmetic right shift. */
  function BetterGuess(fmt: Format, x: Fixed): (r: Fixed)
    requires fmt.Valid()
    ensures IsValue(fmt, r)
  {
    var sum := Add(fmt, ApproxSqrt(fmt, x), Shifted(fmt, x));
    DivBounds(sum.v, 2);
    Fixed(sum.v / 2)
  }

  /** `better_approx_sqrt`, step by step: the guess, the shift amount, the
      parameter's raw value overwritten by the shifted value, the sum, and
      the in-place halving. */
  method BetterApproxSqrt(fmt: Format, x: Fixed) returns (guess: Fixed)
    requires fmt.Valid()
    ensures guess == BetterGuess(fmt, x)
  {
    var highest := fmt.width - LeadingZeros(fmt, x.v) - 1;
    assert highest == HighestSetBit(fmt, x);
    assert (highest + fmt.frac) / 2 == GuessExponent(fmt, x);
    guess := FromBits(fmt, ShiftOne((highest + fmt.frac) / 2));
    assert guess == ApproxSqrt(fmt, x);
    var shift := (highest + fmt.frac) / 2 - fmt.frac;
    assert shift == ShiftAmount(fmt, x);
    var xv := x.v;
    if shift >= 0 {
      xv := FromBits(fmt, xv / Pow2(shift)).v;
    } else {
      xv := FromBits(fmt, xv * Pow2(-shift)).v;
    }
    assert Fixed(xv) == Shifted(fmt, x);
    guess := Add(fmt, guess, Fixed(xv));
    guess := Fixed(guess.v / 2);
  }

  /** When nothing wraps, the averaging step of `better_approx_sqrt` is a
      Newton step from the power-of-two guess, so it does not land below
      the integer square root of X. */
  lemma BetterGuessIsNewtonStep(fmt: Format, x: Fixed)
    requires fmt.Valid() && IsValue(fmt, x) && x.v > 0
    requires var g := Pow2(GuessExponent(fmt, x));
             InRange(fmt, g) && InRange(fmt, Scaled(fmt, x) / g) && InRange(fmt, g + Scaled(fmt, x) / g)
    ensures Scaled(fmt, x) >= 0
    ensures BetterGuess(fmt, x).v == NewtonStep(Scaled(fmt, x), Pow2(GuessExponent(fmt, x)))
    ensures Scaled(fmt, x) < (BetterGuess(fmt, x).v + 1) * (BetterGuess(fmt, x).v + 1)
  {
    MulLe(0, x.v, Pow2(fmt.frac));
    ApproxSqrtValue(fmt, x);
    ShiftedIsQuotient(fmt, x);
    NewtonStepNotBelowRoot(Scaled(fmt, x), Pow2(GuessExponent(fmt, x)));
  }

  // ---------------------------------------------------------------------
  // The iteration.

  /** One pass of the `sqrt` loop: `y = y + x/y` with the truncating
      division, then `y.v >>= 1`. */
  function FastStep(fmt: Format, x: Fixed, y: Fixed): (r: Fixed)
    requires fmt.Valid() && y.v != 0
    ensures IsValue(fmt, r)
  {
    var sum := Add(fmt, y, Div(fmt, x, y));
    DivBounds(sum.v, 2);
    Fixed(sum.v / 2)
  }

  /** When nothing wraps, a pass of the loop is a Newton step on X, so the
      new guess is not below the integer square root. */
  lemma FastStepIsNewtonStep(fmt: Format, x: Fixed, y: Fixed)
    requires fmt.Valid() && x.v >= 0 && y.v > 0
    requires InRange(fmt, Scaled(fmt, x) / y.v) && InRange(fmt, y.v + Scaled(fmt, x) / y.v)
    ensures Scaled(fmt, x) >= 0
    ensures FastStep(fmt, x, y).v == NewtonStep(Scaled(fmt, x), y.v)
    ensures Scaled(fmt, x) < (FastStep(fmt, x, y).v + 1) * (FastStep(fmt, x, y).v + 1)
  {
    MulLe(0, x.v, Pow2(fmt.frac));
    DivNonneg(Scaled(fmt, x), y.v);
    NewtonStepNotBelowRoot(Scaled(fmt, x), y.v);
  }

  /** The number of passes of the `sqrt` loop. */
  const Passes: nat := 4

  /** The next n passes divide by a nonzero guess each time. */
  predicate StepsDefined(fmt: Format, x: Fixed, y: Fixed, n: nat)
    requires fmt.Valid()
    decreases n
  {
    n == 0 || (y.v != 0 && StepsDefined(fmt, x, FastStep(fmt, x, y), n - 1))
  }

  /** The guess after n more passes. */
  function Steps(fmt: Format, x: Fixed, y: Fixed, n: nat): (r: Fixed)
    requires fmt.Valid() && StepsDefined(fmt, x, y, n)
    ensures n > 0 || IsValue(fmt, y) ==> IsValue(fmt, r)
    decreases n
  {
    if n == 0 then y else Steps(fmt, x, FastStep(fmt, x, y), n - 1)
  }

  /** The last step: `correctly_rounded_division` by the guess, added,
      then `correctly_rounded_division` by `make_fixed(2)`, both as written
      (so in an unsigned format half the divisor is subtracted). */
  function FinalStep(fmt: Format, x: Fixed, y: Fixed): (r: Fixed)
    requires fmt.Valid() && IsValue(fmt, x) && IsValue(fmt, y)
    requires y.v != 0 && FromInt(fmt, 2).v != 0
    ensures IsValue(fmt, r)
  {
    var z := Add(fmt, y, CorrectlyRoundedDivisionAsWritten(fmt, x, y));
    CorrectlyRoundedDivisionAsWritten(fmt, z, FromInt(fmt, 2))
  }

  /** `sqrt` divides by zero nowhere: the four loop divisors, the last
      guess, and `make_fixed(2)` (which is zero, signed or unsigned, when
      fraction = width - 1). */
  predicate SqrtDefined(fmt: Format, x: Fixed)
  {
    && fmt.Valid()
    && IsValue(fmt, x)
    && StepsDefined(fmt, x, BetterGuess(fmt, x), Passes)
    && Steps(fmt, x, BetterGuess(fmt, x), Passes).v != 0
    && FromInt(fmt, 2).v != 0
  }

  /** What `sqrt` computes. */
  function SqrtSpec(fmt: Format, x: Fixed): (r: Fixed)
    requires SqrtDefined(fmt, x)
    ensures IsValue(fmt, r)
  {
    FinalStep(fmt, x, Steps(fmt, x, BetterGuess(fmt, x), Passes))
  }

  /** The loop of `sqrt`: `Passes` times, `y = y + x/y` with the
      truncating division, then `y.v >>= 1`. */
  method Iterate(fmt: Format, x: Fixed, y0: Fixed) returns (y: Fixed)
    requires fmt.Valid() && StepsDefined(fmt, x, y0, Passes)
    ensures y == Steps(fmt, x, y0, Passes)
  {
    y := y0;
    for i := 0 to Passes
      invariant StepsDefined(fmt, x, y, Passes - i)
      invariant Steps(fmt, x, y, Passes - i) == Steps(fmt, x, y0, Passes)
    {
      ghost var next := FastStep(fmt, x, y);
      assert Steps(fmt, x, y, Passes - i) == Steps(fmt, x, next, Passes - i - 1);
      y := Add(fmt, y, Div(fmt, x, y));
      y := Fixed(y.v / 2);
      assert y == next;
    }
  }

  /** `sqrt`: the improved guess, the loop, and the rounding step. The
      rounding division is `correctly_rounded_division` as written, which
      in an unsigned format subtracts half the divisor. */
  method Sqrt(fmt: Format, x: Fixed) returns (y: Fixed)
    requires SqrtDefined(fmt, x)
    ensures y == SqrtSpec(fmt, x)
  {
    y := BetterApproxSqrt(fmt, x);
    y := Iterate(fmt, x, y);
    y := Add(fmt, y, CorrectlyRoundedDivisionAsWritten(fmt, x, y));
    y := CorrectlyRoundedDivisionAsWritten(fmt, y, FromInt(fmt, 2));
  }

  // ---------------------------------------------------------------------
  // Where `sqrt` is defined, and what it gives for exact squares.

  /** The passes from y keep every intermediate sum in range and divide by
      a positive guess each time. */
  predicate StepsFit(fmt: Format, x: Fixed, y: Fixed, n: nat)
    requires fmt.Valid()
    decreases n
  {
    n == 0 ||
    (&& y.v > 0
     && InRange(fmt, Scaled(fmt, x) / y.v)
     && InRange(fmt, y.v + Scaled(fmt, x) / y.v)
     && StepsFit(fmt, x, FastStep(fmt, x, y), n - 1))
  }

  /** For a positive radicand, a pass that does not wrap keeps the guess
      positive: it does not fall below the integer root of X >= 2. */
  lemma FastStepPositive(fmt: Format, x: Fixed, y: Fixed)
    requires fmt.Valid() && x.v > 0 && y.v > 0
    requires InRange(fmt, Scaled(fmt, x) / y.v) && InRange(fmt, y.v + Scaled(fmt, x) / y.v)
    ensures FastStep(fmt, x, y).v > 0
  {
    FastStepIsNewtonStep(fmt, x, y);
    MulLe(1, x.v, Pow2(fmt.frac));
    Pow2Strict(0, fmt.frac);
  }

  /** Passes that do not wrap never divide by zero and end on a positive
      guess. */
  lemma {:induction false} StepsFitDefined(fmt: Format, x: Fixed, y: Fixed, n: nat)
    requires fmt.Valid() && x.v > 0 && y.v > 0 && StepsFit(fmt, x, y, n)
    ensures StepsDefined(fmt, x, y, n) && Steps(fmt, x, y, n).v > 0
    decreases n
  {
    if n > 0 {
      FastStepPositive(fmt, x, y);
      StepsFitDefined(fmt, x, FastStep(fmt, x, y), n - 1);
    }
  }

  /** `sqrt` of a positive value divides by zero nowhere when none of its
      passes wraps and `make_fixed(2)` is not zero. */
  lemma SqrtDefinedWithoutWrap(fmt: Format, x: Fixed)
    requires fmt.Valid() && IsValue(fmt, x) && x.v > 0
    requires StepsFit(fmt, x, BetterGuess(fmt, x), Passes)
    requires FromInt(fmt, 2).v != 0
    ensures SqrtDefined(fmt, x)
  {
    assert BetterGuess(fmt, x).v > 0;
    StepsFitDefined(fmt, x, BetterGuess(fmt, x), Passes);
  }

  /** A pass from the exact root stays there. */
  lemma ExactRootFixed(fmt: Format, x: Fixed, y: Fixed)
    requires fmt.Valid() && y.v > 0 && Scaled(fmt, x) == y.v * y.v
    requires InRange(fmt, 2 * y.v)
    ensures Scaled(fmt, x) / y.v == y.v
    ensures FastStep(fmt, x, y) == y
  {
    MulDivExact(y.v, y.v);
    TruncDivExact(y.v, y.v);
    assert InRange(fmt, y.v);
    DivByValue(fmt, x, y, y.v);
    assert Add(fmt, y, Fixed(y.v)) == Fixed(2 * y.v);
  }

  lemma {:induction false} ExactRootSteps(fmt: Format, x: Fixed, y: Fixed, n: nat)
    requires fmt.Valid() && y.v > 0 && Scaled(fmt, x) == y.v * y.v
    requires InRange(fmt, 2 * y.v)
    ensures StepsFit(fmt, x, y, n) && StepsDefined(fmt, x, y, n) && Steps(fmt, x, y, n) == y
    decreases n
  {
    if n > 0 {
      ExactRootFixed(fmt, x, y);
      ExactRootSteps(fmt, x, y, n - 1);
    }
  }

  /** When the improved guess is already the exact root y of X, `sqrt`
      returns y in a signed format, and y less one raw unit in an unsigned
      format, where the as-written rounding subtracts half the divisor. */
  lemma SqrtOfExactSquare(fmt: Format, x: Fixed, y: Fixed)
    requires fmt.Valid() && IsValue(fmt, x) && y.v > 0
    requires Scaled(fmt, x) == y.v * y.v && InRange(fmt, 2 * y.v)
    requires BetterGuess(fmt, x) == y
    requires InRange(fmt, 2 * Pow2(fmt.frac))
    ensures SqrtDefined(fmt, x)
    ensures fmt.signed ==> SqrtSpec(fmt, x) == y
    ensures !fmt.signed ==> SqrtSpec(fmt, x) == Fixed(y.v - 1)
  {
    TwoRepresentable(fmt);
    ExactRootSteps(fmt, x, y, Passes);
    assert SqrtSpec(fmt, x) == FinalStep(fmt, x, y);
    if fmt.signed {
      FinalStepOnSignedRoot(fmt, x, y);
    } else {
      FinalStepOnUnsignedRoot(fmt, x, y);
    }
  }

  lemma FinalStepOnSignedRoot(fmt: Format, x: Fixed, y: Fixed)
    requires fmt.Valid() && fmt.signed && IsValue(fmt, x) && y.v > 0
    requires Scaled(fmt, x) == y.v * y.v && InRange(fmt, 2 * y.v)
    requires FromInt(fmt, 2).v == 2 * Pow2(fmt.frac)
    ensures FinalStep(fmt, x, y) == y
  {
    var p, two, k := Pow2(fmt.frac), FromInt(fmt, 2), y.v;
    ExactDivisionRounded(fmt, x, y, k);
    var q := CorrectlyRoundedDivisionAsWritten(fmt, x, y);
    assert q == y;
    var z := Add(fmt, y, q);
    assert z.v == 2 * k;
    assert Scaled(fmt, z) == k * two.v by {
      assert Scaled(fmt, z) == (2 * k) * p;
      MulAssoc(2, k, p);
      MulAssoc(k, 2, p);
    }
    ExactDivisionRounded(fmt, z, two, k);
    var r := CorrectlyRoundedDivisionAsWritten(fmt, z, two);
    assert r == y;
  }

  lemma FinalStepOnUnsignedRoot(fmt: Format, x: Fixed, y: Fixed)
    requires fmt.Valid() && !fmt.signed && IsValue(fmt, x) && y.v > 0
    requires Scaled(fmt, x) == y.v * y.v && InRange(fmt, 2 * y.v)
    requires FromInt(fmt, 2).v == 2 * Pow2(fmt.frac)
    ensures FinalStep(fmt, x, y) == Fixed(y.v - 1)
  {
    var k := y.v;
    ScaledAtLeastTwo(fmt, x);
    UnsignedExactDivisionAsWritten(fmt, x, y, k);
    var z := Add(fmt, y, CorrectlyRoundedDivisionAsWritten(fmt, x, y));
    assert z == Fixed(2 * k - 1);
    UnsignedHalvingAsWritten(fmt, k);
  }

  /** A positive value scaled by 2^fraction is at least two. */
  lemma ScaledAtLeastTwo(fmt: Format, x: Fixed)
    requires fmt.Valid() && Scaled(fmt, x) > 0
    ensures Scaled(fmt, x) >= 2
  {
    var p := Pow2(fmt.frac);
    if x.v <= 0 {
      MulLe(x.v, 0, p);
    } else {
      MulLe(1, x.v, p);
    }
    Pow2Strict(0, fmt.frac);
  }

  /** In an unsigned format, (2k - 1) raw units divided by 2.0 as written
      give k - 1. */
  lemma UnsignedHalvingAsWritten(fmt: Format, k: int)
    requires fmt.Valid() && !fmt.signed && k >= 1 && InRange(fmt, 2 * k - 1)
    requires FromInt(fmt, 2).v == 2 * Pow2(fmt.frac)
    ensures CorrectlyRoundedDivisionAsWritten(fmt, Fixed(2 * k - 1), FromInt(fmt, 2)) == Fixed(k - 1)
  {
    var p, z := Pow2(fmt.frac), Fixed(2 * k - 1);
    var d := 2 * p;
    var m := Scaled(fmt, z) - d / 2;
    assert m == (k - 1) * d by {
      assert Scaled(fmt, z) == (2 * k - 1) * p;
      Distribute(2 * k - 2, 1, p);
      MulAssoc(2, k - 1, p);
      MulAssoc(k - 1, 2, p);
    }
    MulLe(0, k - 1, d);
    MulDivExact(k - 1, d);
    var r := CorrectlyRoundedDivisionAsWritten(fmt, z, FromInt(fmt, 2));
    DivUnique(m, r.v, d);
  }

  /** 2.0 is representable exactly when `make_fixed(2)` stores 2 << fraction. */
  lemma TwoRepresentable(fmt: Format)
    requires fmt.Valid() && InRange(fmt, 2 * Pow2(fmt.frac))
    ensures FromInt(fmt, 2).v == 2 * Pow2(fmt.frac)
  {
    var p, hi := Pow2(fmt.frac), MaxAsInt(fmt);
    if hi + 1 <= 2 {
      MulLe(hi + 1, 2, p);
    }
  }

  /** In `fixed<int16_t, 8>` the square root of 1.0 (raw 256) is 1.0. */
  lemma SqrtOfOne()
    ensures SqrtDefined(Format(16, true, 8), Fixed(256))
    ensures SqrtSpec(Format(16, true, 8), Fixed(256)) == Fixed(256)
  {
    var fmt, x := Format(16, true, 8), Fixed(256);
    Pow2Values();
    assert Pow2(9) == 512;
    BitLengthUnique(256, 8);
    assert Unsigned(fmt, 256) == 256;
    assert HighestSetBit(fmt, x) == 8;
    assert GuessExponent(fmt, x) == 8;
    assert ShiftOne(8) == 256;
    assert ApproxSqrt(fmt, x) == Fixed(256);
    assert ShiftAmount(fmt, x) == 0;
    assert Shifted(fmt, x) == Fixed(256);
    assert Add(fmt, Fixed(256), Fixed(256)) == Fixed(512);
    assert Scaled(fmt, x) == 256 * 256;
    SqrtOfExactSquare(fmt, x, Fixed(256));
  }

  /** In `fixed<uint8_t, 4>` the square root of 4.0 (raw 64) comes out as
      1.9375 (raw 31): the guesses stay at the exact root 2.0, and the two
      as-written rounding divisions each lose one raw unit. */
  lemma SqrtOfFourUnsigned()
    ensures SqrtDefined(Format(8, false, 4), Fixed(64))
    ensures SqrtSpec(Format(8, false, 4), Fixed(64)) == Fixed(31)
  {
    var fmt, x := Format(8, false, 4), Fixed(64);
    Pow2Values();
    assert Pow2(4) == 16 && Pow2(5) == 32 && Pow2(6) == 64 && Pow2(7) == 128;
    BitLengthUnique(64, 6);
    assert Unsigned(fmt, 64) == 64;
    assert HighestSetBit(fmt, x) == 6;
    assert GuessExponent(fmt, x) == 5;
    assert ShiftOne(5) == 32;
    assert ApproxSqrt(fmt, x) == Fixed(32);
    assert ShiftAmount(fmt, x) == 1;
    assert Shifted(fmt, x) == Fixed(32);
    assert Add(fmt, Fixed(32), Fixed(32)) == Fixed(64);
    assert Scaled(fmt, x) == 32 * 32;
    SqrtOfExactSquare(fmt, x, Fixed(32));
  }

  /** For the radicand zero the improved guess is 2^((fraction - 1) / 2)
      halved. */
  lemma BetterGuessOfZeroIn(fmt: Format)
    requires fmt.Valid()
    ensures InRange(fmt, Pow2((fmt.frac - 1) / 2))
    ensures BetterGuess(fmt, Fixed(0)) == Fixed(Pow2((fmt.frac - 1) / 2) / 2)
  {
    var e := (fmt.frac - 1) / 2;
    var w: nat := fmt.width;
    assert Unsigned(fmt, 0) == 0;
    assert HighestSetBit(fmt, Fixed(0)) == -1;
    assert GuessExponent(fmt, Fixed(0)) == e;
    Pow2Strict(e, w - 1);
    Pow2Monotone(w - 1, w);
    assert InRange(fmt, Pow2(e));
    assert ApproxSqrt(fmt, Fixed(0)) == Fixed(Pow2(e));
    assert ShiftAmount(fmt, Fixed(0)) < 0;
    assert Shifted(fmt, Fixed(0)) == Fixed(0);
    assert Add(fmt, Fixed(Pow2(e)), Fixed(0)) == Fixed(Pow2(e));
  }

  /** From the guess 2^k on the radicand zero, each pass halves the guess:
      n passes are defined while n <= k + 1, and end on 2^(k - n), or on 0
      after k + 1 passes. */
  lemma {:induction false} StepsOnZero(fmt: Format, k: nat, n: nat)
    requires fmt.Valid() && InRange(fmt, Pow2(k))
    ensures StepsDefined(fmt, Fixed(0), Fixed(Pow2(k)), n) <==> n <= k + 1
    ensures n <= k + 1 ==>
      Steps(fmt, Fixed(0), Fixed(Pow2(k)), n).v == if n <= k then Pow2(k - n) else 0
    decreases n
  {
    if n > 0 {
      var y := Fixed(Pow2(k));
      FastStepOnZero(fmt, y);
      if k == 0 {
        assert FastStep(fmt, Fixed(0), y) == Fixed(0);
        assert StepsDefined(fmt, Fixed(0), Fixed(0), n - 1) <==> n == 1;
      } else {
        assert Pow2(k) / 2 == Pow2(k - 1);
        Pow2Monotone(k - 1, k);
        StepsOnZero(fmt, k - 1, n - 1);
      }
    }
  }

  /** `sqrt(0)` divides by zero unless the format has at least 11 fraction
      bits (the guess needs five halvings to reach zero) and `make_fixed(2)`
      is not zero. */
  lemma SqrtOfZeroDefined(fmt: Format)
    requires fmt.Valid()
    ensures SqrtDefined(fmt, Fixed(0)) <==> 11 <= fmt.frac && FromInt(fmt, 2).v != 0
  {
    var e := (fmt.frac - 1) / 2;
    BetterGuessOfZeroIn(fmt);
    HiSplits(fmt);
    assert IsValue(fmt, Fixed(0));
    if e == 0 {
      assert BetterGuess(fmt, Fixed(0)) == Fixed(0);
      assert !StepsDefined(fmt, Fixed(0), Fixed(0), Passes);
    } else {
      assert Pow2(e) / 2 == Pow2(e - 1);
      Pow2Monotone(e - 1, e);
      StepsOnZero(fmt, e - 1, Passes);
    }
  }

  // ---------------------------------------------------------------------
  // Where the iteration divides by zero, and a worked value.

  /** `make_fixed(2)` is `2 << fraction`, which wraps to zero when
      fraction = width - 1, signed or not, so the last division of `sqrt`
      divides by zero there whatever the radicand. */
  lemma MakeTwoVanishes(fmt: Format)
    requires fmt.Valid() && fmt.frac + 1 == fmt.width
    ensures FromInt(fmt, 2).v == 0
    ensures forall x :: !SqrtDefined(fmt, x)
  {
    var p := Pow2(fmt.frac);
    assert 2 * p == fmt.Modulus();
    CongruentByMultiple(2 * p, 0, 1, fmt.Modulus());
    WrapCongruent(fmt, 2 * p, 0);
  }

  /** A pass of the loop on the radicand zero only halves the guess. */
  lemma FastStepOnZero(fmt: Format, y: Fixed)
    requires fmt.Valid() && IsValue(fmt, y) && y.v != 0
    ensures FastStep(fmt, Fixed(0), y) == Fixed(y.v / 2)
  {
    assert Scaled(fmt, Fixed(0)) == 0;
    assert TruncDiv(0, y.v) == 0;
    assert InRange(fmt, 0);
    assert Div(fmt, Fixed(0), y) == Fixed(0);
    assert Add(fmt, y, Fixed(0)) == y;
  }

  /** Starting from the guess raw 1, the square root of zero divides by
      zero: the first pass halves the guess to 0 and the second divides by
      it. */
  lemma GuessOneReachesZero(fmt: Format)
    requires fmt.Valid()
    ensures FastStep(fmt, Fixed(0), Fixed(1)) == Fixed(0)
    ensures !StepsDefined(fmt, Fixed(0), Fixed(1), Passes)
    ensures BetterGuess(fmt, Fixed(0)) == Fixed(1) ==> !SqrtDefined(fmt, Fixed(0))
  {
    HiSplits(fmt);
    FastStepOnZero(fmt, Fixed(1));
    assert !StepsDefined(fmt, Fixed(0), Fixed(0), Passes - 1);
  }

  /** With three or four fraction bits (`fixed<int8_t, 4>`, say) the
      square root of zero divides by zero: the improved guess is raw 1, the
      first pass halves it to 0, and the second pass divides by it. */
  lemma SqrtOfZeroDividesByZero(fmt: Format)
    requires fmt.Valid() && 3 <= fmt.frac <= 4
    ensures BetterGuess(fmt, Fixed(0)) == Fixed(1)
    ensures FastStep(fmt, Fixed(0), Fixed(1)) == Fixed(0)
    ensures !SqrtDefined(fmt, Fixed(0))
  {
    BetterGuessOfZeroIn(fmt);
    assert (fmt.frac - 1) / 2 == 1 && Pow2(1) == 2;
    GuessOneReachesZero(fmt);
  }
}
