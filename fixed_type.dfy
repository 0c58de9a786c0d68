/** The fixed-point representation `fixed<T, fraction>`: a raw integer `v`
    held in an 8-, 16- or 32-bit signed or unsigned integer `T`, standing
    for the value v / 2^fraction. */
module FixedType {
  import opened Arith

  /** A bit width of `T`. The storage arithmetic (wrap-around) holds for
      every width; a format is valid only for the 8-, 16- and 32-bit widths
      that multiplication and division support (64-bit storage is refused
      at compile time). */
  type Width = w: nat | 0 < w witness 8

  /** One instantiation `fixed<T, fraction>`: the width and signedness of
      `T` and the number of fraction bits. */
  datatype Format = Format(width: Width, signed: bool, frac: nat) {
    predicate Valid() {
      (width == 8 || width == 16 || width == 32) && 0 < frac < width
    }

    /** 2^width: storing into `T` reduces modulo this. */
    function Modulus(): nat {
      Pow2(width)
    }

    /** Least value of `T`. */
    function Lo(): int {
      if signed then -Pow2(width - 1) else 0
    }

    /** One more than the greatest value of `T`. */
    function Hi(): int {
      if signed then Pow2(width - 1) else Pow2(width)
    }
  }

  /** A `fixed` value: only its raw field `v`. */
  datatype Fixed = Fixed(v: int)

  predicate InRange(fmt: Format, x: int) {
    fmt.Lo() <= x < fmt.Hi()
  }

  predicate IsValue(fmt: Format, a: Fixed) {
    InRange(fmt, a.v)
  }

  /** Conversion of an integer to `T`: two's-complement (or unsigned)
      wrap-around modulo 2^width. */
  function Wrap(fmt: Format, x: int): (r: int)
    ensures InRange(fmt, r)
    ensures Congruent(x, r, fmt.Modulus())
    ensures InRange(fmt, x) ==> r == x
  {
    assert fmt.Lo() + fmt.Modulus() == fmt.Hi();
    Reduce(fmt.Lo(), fmt.Modulus(), x)
  }

  /** Two integers congruent modulo 2^width store as the same `T`. */
  lemma WrapCongruent(fmt: Format, x: int, y: int)
    requires Congruent(x, y, fmt.Modulus())
    ensures Wrap(fmt, x) == Wrap(fmt, y)
  {
    ReduceCongruent(fmt.Lo(), fmt.Modulus(), x, y);
  }

  /** Storing an intermediate into `T` early does not change the stored
      result of a later sum. */
  lemma WrapAdd(fmt: Format, x: int, y: int)
    ensures Wrap(fmt, Wrap(fmt, x) + y) == Wrap(fmt, x + y)
  {
    var m := fmt.Modulus();
    CongruentSymmetric(x, Wrap(fmt, x), m);
    CongruentAdd(Wrap(fmt, x), y, x, y, m);
    WrapCongruent(fmt, Wrap(fmt, x) + y, x + y);
  }

  lemma WrapNeg(fmt: Format, x: int)
    ensures Wrap(fmt, -Wrap(fmt, x)) == Wrap(fmt, -x)
  {
    var m := fmt.Modulus();
    CongruentSymmetric(x, Wrap(fmt, x), m);
    CongruentNeg(Wrap(fmt, x), x, m);
    WrapCongruent(fmt, -Wrap(fmt, x), -x);
  }

  lemma WrapMul(fmt: Format, x: int, c: int)
    ensures Wrap(fmt, Wrap(fmt, x) * c) == Wrap(fmt, x * c)
  {
    var m := fmt.Modulus();
    CongruentSymmetric(x, Wrap(fmt, x), m);
    CongruentMul(Wrap(fmt, x), x, c, m);
    WrapCongruent(fmt, Wrap(fmt, x) * c, x * c);
  }

  /** `fp_from_bits`: the given bits become `v` as they are, after the
      argument's conversion to `T`. */
  function FromBits(fmt: Format, i: int): (r: Fixed)
    ensures IsValue(fmt, r)
    ensures InRange(fmt, i) ==> r.v == i
    ensures Congruent(i, r.v, fmt.Modulus())
  {
    Fixed(Wrap(fmt, i))
  }

  /** Number of bits left for the integer part. */
  function WholeBits(fmt: Format): (r: nat)
    requires fmt.Valid()
    ensures r + fmt.frac + (if fmt.signed then 1 else 0) == fmt.width
  {
    fmt.width - fmt.frac - (if fmt.signed then 1 else 0)
  }

  /** How the width splits into whole bits, fraction bits and the sign. */
  lemma HiSplits(fmt: Format)
    requires fmt.Valid()
    ensures fmt.Hi() == Pow2(WholeBits(fmt)) * Pow2(fmt.frac)
    ensures fmt.Lo() == if fmt.signed then -fmt.Hi() else 0
    ensures 2 * Pow2(WholeBits(fmt)) <= fmt.Hi()
    ensures 2 <= Pow2(fmt.frac) <= fmt.Hi()
  {
    Pow2Add(WholeBits(fmt), fmt.frac);
    Pow2Monotone(fmt.frac, fmt.width - 1);
    Pow2Monotone(1, fmt.frac);
    if fmt.signed {
      Pow2Strict(WholeBits(fmt), fmt.width - 1);
    } else {
      Pow2Strict(WholeBits(fmt), fmt.width);
      Pow2Monotone(fmt.width - 1, fmt.width);
    }
  }

  /** `supremum_as_int`: one more than the greatest whole number the format
      holds; scaled by 2^fraction it is exactly the top of `T`. */
  function SupremumAsInt(fmt: Format): (r: int)
    requires fmt.Valid()
    ensures r == Pow2(WholeBits(fmt))
    ensures r * Pow2(fmt.frac) == fmt.Hi()
  {
    HiSplits(fmt);
    Wrap(fmt, Pow2(WholeBits(fmt)))
  }

  /** `max_as_int`: the greatest whole number the format holds. */
  function MaxAsInt(fmt: Format): (r: int)
    requires fmt.Valid()
    ensures r == SupremumAsInt(fmt) - 1
    ensures (r + 1) * Pow2(fmt.frac) == fmt.Hi()
  {
    HiSplits(fmt);
    Wrap(fmt, Pow2(WholeBits(fmt)) - 1)
  }

  /** `minimum_as_int`: the least whole number the format holds; scaled by
      2^fraction it is exactly the bottom of `T`. */
  function MinimumAsInt(fmt: Format): (r: int)
    requires fmt.Valid()
    ensures r == (if fmt.signed then -SupremumAsInt(fmt) else 0)
    ensures r * Pow2(fmt.frac) == fmt.Lo()
  {
    HiSplits(fmt);
    var sup := SupremumAsInt(fmt);
    NegMul(sup, Pow2(fmt.frac));
    if fmt.signed then
      Wrap(fmt, -sup)
    else 0
  }

  lemma MulSucc(a: int, p: int)
    ensures (a + 1) * p == a * p + p
  {
  }

  lemma NegMul(a: int, b: int)
    ensures (-a) * b == -(a * b)
  {
  }

  /** `frac_mask`: the low `fraction` bits set. */
  function FracMask(fmt: Format): (r: int)
    requires fmt.Valid()
    ensures r + 1 == Pow2(fmt.frac)
  {
    HiSplits(fmt);
    Wrap(fmt, Pow2(fmt.frac) - 1)
  }

  /** The integer constructor `fixed(int_type i)`, `operator=(int)` and
      `make_fixed(T)`: `v = i << fraction`, stored into `T`. Every whole
      number between the format's bounds is held exactly. */
  function FromInt(fmt: Format, i: int): (r: Fixed)
    requires fmt.Valid()
    ensures IsValue(fmt, r)
    ensures MinimumAsInt(fmt) <= i <= MaxAsInt(fmt) ==> r.v == i * Pow2(fmt.frac)
  {
    var p := Pow2(fmt.frac);
    var lo, hi := MinimumAsInt(fmt), MaxAsInt(fmt);
    MulMono(lo, i, p);
    MulMono(i, hi, p);
    MulSucc(hi, p);
    FromBits(fmt, i * p)
  }

  /** `to_int`: `v >> fraction`, an arithmetic shift, so the whole number
      at or below the value. */
  function ToInt(fmt: Format, a: Fixed): (r: int)
    requires fmt.Valid()
    ensures r * Pow2(fmt.frac) <= a.v < r * Pow2(fmt.frac) + Pow2(fmt.frac)
    ensures IsValue(fmt, a) ==> MinimumAsInt(fmt) <= r <= MaxAsInt(fmt)
  {
    var p := Pow2(fmt.frac);
    DivBounds(a.v, p);
    ScaledInRange(fmt, a.v / p, a.v);
    a.v / p
  }

  /** The whole number at or below an in-range raw value lies between the
      format's integer bounds. */
  lemma ScaledInRange(fmt: Format, q: int, x: int)
    requires fmt.Valid()
    requires q * Pow2(fmt.frac) <= x < q * Pow2(fmt.frac) + Pow2(fmt.frac)
    ensures InRange(fmt, x) ==> MinimumAsInt(fmt) <= q <= MaxAsInt(fmt)
  {
    var p := Pow2(fmt.frac);
    var lo, hi := MinimumAsInt(fmt), MaxAsInt(fmt);
    MulMono(q, lo - 1, p);
    MulMono(hi + 1, q, p);
    MulSucc(lo - 1, p);
    MulSucc(q, p);
  }

  /** Whole numbers survive the trip through the integer constructor. */
  lemma IntRoundTrip(fmt: Format, i: int)
    requires fmt.Valid()
    requires MinimumAsInt(fmt) <= i <= MaxAsInt(fmt)
    ensures ToInt(fmt, FromInt(fmt, i)) == i
  {
    MulDivExact(i, Pow2(fmt.frac));
  }

  /** `whole_part`: `(v >> fraction) << fraction`, the value with its
      fraction bits cleared. */
  function WholePart(fmt: Format, a: Fixed): (r: int)
    requires fmt.Valid() && IsValue(fmt, a)
    ensures r % Pow2(fmt.frac) == 0
    ensures r <= a.v < r + Pow2(fmt.frac)
  {
    var p := Pow2(fmt.frac);
    var q := ToInt(fmt, a);
    MulMono(MinimumAsInt(fmt), q, p);
    MulMono(q, MaxAsInt(fmt), p);
    MulDivExact(q, p);
    Wrap(fmt, q * p)
  }

  /** `frac_part`: `v & frac_mask()`. On two's complement the mask keeps
      the non-negative remainder of v modulo 2^fraction. */
  function FracPart(fmt: Format, a: Fixed): (r: int)
    requires fmt.Valid()
    ensures 0 <= r < Pow2(fmt.frac)
    ensures Congruent(a.v, r, Pow2(fmt.frac))
  {
    EuclidCongruent(a.v, Pow2(fmt.frac));
    a.v % Pow2(fmt.frac)
  }

  /** The two parts put back together give the value. */
  lemma WholeFracSplit(fmt: Format, a: Fixed)
    requires fmt.Valid() && IsValue(fmt, a)
    ensures WholePart(fmt, a) + FracPart(fmt, a) == a.v
  {
    var p := Pow2(fmt.frac);
    SplitMod(a.v, WholePart(fmt, a), p);
  }

  /** The explicit conversion `operator fixed<S, new_frac_bits>`: the raw
      value is shifted by the difference in fraction bits (right shifts
      truncate toward minus infinity) and then cast to `S`. */
  function Convert(src: Format, dst: Format, a: Fixed): (r: Fixed)
    requires src.Valid() && dst.Valid()
    ensures IsValue(dst, r)
    ensures dst.frac == src.frac ==> Congruent(a.v, r.v, dst.Modulus())
    ensures dst.frac < src.frac ==> Congruent(a.v / Pow2(src.frac - dst.frac), r.v, dst.Modulus())
    ensures dst.frac > src.frac ==> Congruent(a.v * Pow2(dst.frac - src.frac), r.v, dst.Modulus())
    ensures dst.frac < src.frac && InRange(dst, a.v / Pow2(src.frac - dst.frac)) ==>
      var d := Pow2(src.frac - dst.frac);
      r.v * d <= a.v < r.v * d + d
    ensures dst.frac > src.frac && InRange(dst, a.v * Pow2(dst.frac - src.frac)) ==>
      r.v == a.v * Pow2(dst.frac - src.frac)
  {
    if dst.frac == src.frac then
      Fixed(Wrap(dst, a.v))
    else if dst.frac < src.frac then
      DivBounds(a.v, Pow2(src.frac - dst.frac));
      Fixed(Wrap(dst, a.v / Pow2(src.frac - dst.frac)))
    else
      Fixed(Wrap(dst, a.v * Pow2(dst.frac - src.frac)))
  }

  /** Gaining fraction bits and losing them again gives back the value,
      when the wider format holds it. */
  lemma ConvertRoundTrip(src: Format, dst: Format, a: Fixed)
    requires src.Valid() && dst.Valid() && IsValue(src, a)
    requires src.frac < dst.frac
    requires InRange(dst, a.v * Pow2(dst.frac - src.frac))
    ensures Convert(dst, src, Convert(src, dst, a)) == a
  {
    MulDivExact(a.v, Pow2(dst.frac - src.frac));
  }

  // ---------------------------------------------------------------------
  // The literal helper `fixed_construction_helper`.

  /** What the `_fixp_t` literal leaves for the constructor: the whole part
      (an int64), the fraction as a 64-bit binary fraction frac / 2^64 (a
      uint64) and a sign flag. */
  datatype Helper = Helper(whole: int, frac: nat, negative: bool) {
    predicate Valid() {
      -0x8000_0000_0000_0000 <= whole < 0x8000_0000_0000_0000 && frac < 0x1_0000_0000_0000_0000
    }
  }

  /** Unary minus on the helper flips the sign flag only. */
  function NegateHelper(h: Helper): (r: Helper)
    ensures r.whole == h.whole && r.frac == h.frac
    ensures r.negative != h.negative
  {
    h.(negative := !h.negative)
  }

  /** Unary plus on the helper. */
  function PlusHelper(h: Helper): (r: Helper)
    ensures r == h
  {
    h
  }

  lemma NegateHelperInvolutive(h: Helper)
    ensures NegateHelper(NegateHelper(h)) == h
    ensures PlusHelper(NegateHelper(h)) == NegateHelper(PlusHelper(h))
  {
  }

  /** The magnitude the helper constructor computes before the sign:
      `(whole << fraction) | (frac >> (64 - fraction))`, plus one when the
      first dropped bit is set. */
  function RoundedMagnitude(fmt: Format, h: Helper): (m: int)
    requires fmt.Valid() && h.Valid()
    ensures h.whole * Pow2(fmt.frac) <= m <= h.whole * Pow2(fmt.frac) + Pow2(fmt.frac)
  {
    var f := fmt.frac;
    FracBitsBound(h.frac, f);
    h.whole * Pow2(f) + h.frac / Pow2(64 - f) + (h.frac / Pow2(63 - f)) % 2
  }

  /** The top f bits of a 64-bit fraction are below 2^f. */
  lemma FracBitsBound(n: nat, f: nat)
    requires n < 0x1_0000_0000_0000_0000 && f <= 64
    ensures 0 <= n / Pow2(64 - f) < Pow2(f)
  {
    var a, b := Pow2(f), Pow2(64 - f);
    var q := n / b;
    assert a * b == 0x1_0000_0000_0000_0000 by {
      Pow2Wide();
      Pow2Add(f, 64 - f);
    }
    DivBounds(n, b);
    MulMono(a, q, b);
  }

  /** The rounded magnitude is the 64-bit fraction rounded to `fraction`
      bits, to nearest with halves rounded up: the unique m with
      exact - half < m * unit <= exact + half. */
  lemma RoundedMagnitudeNearest(fmt: Format, h: Helper)
    requires fmt.Valid() && h.Valid()
    ensures var exact, m := h.whole * Pow2(64) + h.frac, RoundedMagnitude(fmt, h);
            exact - Pow2(63 - fmt.frac) < m * Pow2(64 - fmt.frac) <= exact + Pow2(63 - fmt.frac)
  {
    var f := fmt.frac;
    var q := h.frac / Pow2(64 - f);
    var bit := (h.frac / Pow2(63 - f)) % 2;
    RoundingStep(h.frac, 63 - f);
    MagnitudeScaled(h.whole, f, q + bit);
  }

  lemma MagnitudeScaled(whole: int, f: nat, c: int)
    requires f <= 64
    ensures (whole * Pow2(f) + c) * Pow2(64 - f) == whole * Pow2(64) + c * Pow2(64 - f)
  {
    var a, b := Pow2(f), Pow2(64 - f);
    Pow2Add(f, 64 - f);
    assert a * b == Pow2(64);
    MulAssoc(whole, a, b);
    Distribute(whole * a, c, b);
  }

  /** Dropping the low k + 1 bits of n and adding back the highest dropped
      bit rounds n / 2^(k+1) to nearest, ties up. */
  lemma RoundingStep(n: nat, k: nat)
    ensures var e := Pow2(k);
            var q := n / Pow2(k + 1);
            var bit := (n / e) % 2;
            n - e < (q + bit) * Pow2(k + 1) <= n + e
  {
    var e := Pow2(k);
    var t := n / e;
    DivDiv(n, k, 1);
    assert Pow2(k + 1) == 2 * e;
    var q := t / 2;
    DivBounds(n, e);
    DivBounds(t, 2);
    if t % 2 == 1 {
      assert t == 2 * q + 1;
      MulLe(2 * q + 1, t, e);
      assert (q + 1) * (2 * e) == (2 * q + 1) * e + e;
    } else {
      assert t == 2 * q;
      assert q * (2 * e) == t * e;
    }
  }

  /** The helper constructor `fixed(fixed_construction_helper)`: the rounded
      magnitude, negated when the flag is set, stored into `T`. */
  function FromHelper(fmt: Format, h: Helper): (r: Fixed)
    requires fmt.Valid() && h.Valid()
    ensures IsValue(fmt, r)
    ensures Congruent(if h.negative then -RoundedMagnitude(fmt, h) else RoundedMagnitude(fmt, h),
                      r.v, fmt.Modulus())
  {
    var m := RoundedMagnitude(fmt, h);
    FromBits(fmt, if h.negative then -m else m)
  }

  /** A negated literal is the exact raw negation of the positive one. */
  lemma NegatedLiteral(fmt: Format, h: Helper)
    requires fmt.Valid() && h.Valid()
    ensures FromHelper(fmt, NegateHelper(h)).v == Wrap(fmt, -FromHelper(fmt, h).v)
  {
    var n := NegateHelper(h);
    var m := RoundedMagnitude(fmt, h);
    assert RoundedMagnitude(fmt, n) == m;
    var x := if h.negative then -m else m;
    assert FromHelper(fmt, h).v == Wrap(fmt, x);
    assert FromHelper(fmt, n).v == Wrap(fmt, -x);
    WrapNeg(fmt, x);
  }
}
