/** `fixed::to_string`: the value printed into a twelve-character buffer as
    an optional minus sign, the decimal digits of the integer part, a dot,
    and as many fraction digits as fit before the last slot, which keeps
    its terminating NUL. The printed digits are the magnitude truncated
    toward zero. */
module Render {
  import opened Arith
  import opened FixedType
  import opened FixedMath
  import opened Literal

  // ---------------------------------------------------------------------
  // Decimal digit strings.

  /** The character of a decimal digit. */
  function Digit(d: int): (c: char)
    requires 0 <= d < 10
    ensures IsDigit(c) && DigitValue(c) == d
  {
    (48 + d) as char
  }

  /** The decimal spelling of n, most significant digit first, without
      leading zeros ("0" for zero). */
  function Digits10(n: nat): (ds: string)
    ensures 1 <= |ds| && AllDigits(ds)
    ensures DecimalValue(ds) == n
    ensures |ds| > 1 ==> ds[0] != '0'
    decreases n
  {
    if n < 10 then
      [Digit(n)]
    else
      var head := Digits10(n / 10);
      DecimalValueSnoc(head, Digit(n % 10));
      assert |head| == 1 ==> DecimalValue(head) == DigitValue(head[0]);
      head + [Digit(n % 10)]
  }

  /** A number below 10^k has at most k digits. */
  lemma {:induction false} Digits10Length(n: nat, k: nat)
    requires 1 <= k && n < Pow10(k)
    ensures |Digits10(n)| <= k
  {
    if n >= 10 {
      assert n / 10 < Pow10(k - 1);
      Digits10Length(n / 10, k - 1);
    }
  }

  /** The spelling is the only one: a digit string without leading zeros
      that spells n is Digits10(n). */
  lemma {:induction false} Digits10Unique(ds: string, n: nat)
    requires 1 <= |ds| && AllDigits(ds) && (|ds| > 1 ==> ds[0] != '0')
    requires DecimalValue(ds) == n
    ensures ds == Digits10(n)
  {
    var init := ds[..|ds| - 1];
    var last := ds[|ds| - 1];
    assert ds == init + [last];
    if |ds| == 1 {
      assert DecimalValue(ds) == DigitValue(last);
    } else {
      DecimalValueBounds(init);
      assert AllDigits(init);
      assert init[0] == ds[0];
      if |init| == 1 {
        assert DecimalValue(init) == DigitValue(init[0]);
      } else {
        LeadingDigitPositive(init);
      }
      assert DecimalValue(init) >= 1;
      DivUnique(n, DecimalValue(init), 10);
      Digits10Unique(init, n / 10);
    }
  }

  /** A digit string of two or more digits whose first digit is not zero
      spells a number of at least 10. */
  lemma {:induction false} LeadingDigitPositive(ds: string)
    requires 2 <= |ds| && AllDigits(ds) && ds[0] != '0'
    ensures DecimalValue(ds) >= 10
  {
    var init := ds[..|ds| - 1];
    assert AllDigits(init) && init[0] == ds[0];
    if |init| == 1 {
      assert DecimalValue(init) == DigitValue(init[0]);
    } else {
      LeadingDigitPositive(init);
    }
  }

  /** The decimal digits of n least significant first, as the digit loop
      of `to_string` produces them; none for zero. */
  function LowDigits(n: nat): string
    decreases n
  {
    if n == 0 then [] else [Digit(n % 10)] + LowDigits(n / 10)
  }

  function Reverse(t: string): (r: string)
    ensures |r| == |t|
    ensures forall i :: 0 <= i < |t| ==> r[i] == t[|t| - 1 - i]
  {
    seq(|t|, i requires 0 <= i < |t| => t[|t| - 1 - i])
  }

  lemma ReverseCons(c: char, t: string)
    ensures Reverse([c] + t) == Reverse(t) + [c]
  {
    assert forall i :: 0 <= i < |t| + 1 ==> Reverse([c] + t)[i] == (Reverse(t) + [c])[i];
  }

  /** Reversing the digits the loop produces gives the spelling of n, for
      every nonzero n. */
  lemma {:induction false} LowDigitsReversed(n: nat)
    requires n > 0
    ensures Reverse(LowDigits(n)) == Digits10(n)
    decreases n
  {
    var c := Digit(n % 10);
    ReverseCons(c, LowDigits(n / 10));
    if n < 10 {
      assert LowDigits(n / 10) == [];
      assert Reverse([]) == [];
    } else {
      LowDigitsReversed(n / 10);
    }
  }

  // ---------------------------------------------------------------------
  // The parts of the printed value.

  /** One slot for the minus sign of a negative value. */
  function Sign(a: Fixed): nat
  {
    if a.v < 0 then 1 else 0
  }

  /** Integer part of the magnitude. */
  function WholeOf(fmt: Format, a: Fixed): nat
  {
    DivNonneg(Abs(a.v), Pow2(fmt.frac));
    Abs(a.v) / Pow2(fmt.frac)
  }

  /** Fraction bits of the magnitude, as a raw count of 2^-fraction. */
  function FracOf(fmt: Format, a: Fixed): nat
  {
    Abs(a.v) % Pow2(fmt.frac)
  }

  /** Where the dot goes: after the sign and the integer digits. */
  function DotAt(fmt: Format, a: Fixed): nat
  {
    Sign(a) + |Digits10(WholeOf(fmt, a))|
  }

  lemma Pow10Ten()
    ensures Pow10(10) == 10000000000
  {
    assert Pow10(2) == 100;
    assert Pow10(4) == 10000;
    assert Pow10(6) == 1000000;
    assert Pow10(8) == 100000000;
  }

  /** The integer part has at most ten digits in every format, so the dot
      always lands inside the buffer. */
  lemma DotBound(fmt: Format, a: Fixed)
    requires fmt.Valid() && IsValue(fmt, a)
    ensures WholeOf(fmt, a) < Pow2(31)
    ensures DotAt(fmt, a) <= 11
  {
    var w: nat := fmt.width;
    var p := Pow2(fmt.frac);
    var n := WholeOf(fmt, a);
    Pow2Values();
    Pow2Monotone(w, 32);
    Pow2Monotone(w - 1, w);
    Pow2Monotone(1, fmt.frac);
    assert Abs(a.v) < Pow2(32);
    DivBounds(Abs(a.v), p);
    if n > 0 {
      MulLe(2, p, n);
    }
    assert 2 * n <= n * p;
    Pow10Ten();
    Digits10Length(n, 10);
  }

  /** The printed digits, read as one number, are the magnitude times 10^k
      divided by 2^fraction with the remainder dropped: the decimal
      rendering truncates toward zero. */
  lemma TruncatedDecimal(fmt: Format, a: Fixed, k: nat)
    ensures WholeOf(fmt, a) * Pow10(k) + FracOf(fmt, a) * Pow10(k) / Pow2(fmt.frac)
            == Abs(a.v) * Pow10(k) / Pow2(fmt.frac)
  {
    var p, t := Pow2(fmt.frac), Pow10(k);
    var w, r := WholeOf(fmt, a), FracOf(fmt, a);
    var q := r * t / p;
    assert Abs(a.v) == w * p + r;
    DivBounds(r * t, p);
    Distribute(w * p, r, t);
    MulAssoc(w, p, t);
    MulAssoc(w, t, p);
    assert p * t == t * p;
    Distribute(w * t, q, p);
    assert Abs(a.v) * t == (w * t + q) * p + (r * t - q * p);
    DivUnique(Abs(a.v) * t, w * t + q, p);
  }

  // ---------------------------------------------------------------------
  // `to_string`.

  /** `std::reverse` on the slots [lo, hi) of the buffer. */
  method ReverseRange(a: array<char>, lo: nat, hi: nat)
    requires lo <= hi <= a.Length
    modifies a
    ensures a[lo..hi] == Reverse(old(a[lo..hi]))
    ensures forall k :: 0 <= k < a.Length && !(lo <= k < hi) ==> a[k] == old(a[k])
  {
    var i, j := lo, hi;
    while i + 1 < j
      invariant lo <= i <= j <= hi && i - lo == hi - j
      invariant forall k :: lo <= k < i ==> a[k] == old(a[lo + hi - 1 - k])
      invariant forall k :: j <= k < hi ==> a[k] == old(a[lo + hi - 1 - k])
      invariant forall k :: i <= k < j ==> a[k] == old(a[k])
      invariant forall k :: 0 <= k < a.Length && !(lo <= k < hi) ==> a[k] == old(a[k])
      decreases j - i
    {
      a[i], a[j - 1] := a[j - 1], a[i];
      i, j := i + 1, j - 1;
    }
    assert forall k :: 0 <= k < hi - lo ==> a[lo..hi][k] == Reverse(old(a[lo..hi]))[k];
  }

  /** One pass of the fraction loop: with the digits so far spelling v and
      f < p left over, the next digit is (10 f) / p and the remainder
      (10 f) mod p, so the invariant moves to one more digit. */
  lemma FracStep(v: int, f: int, t: int, p: int, fr: int, k: nat)
    requires p > 0 && 0 <= f < p && t == 10 * f
    requires v * p + f == fr * Pow10(k)
    ensures 0 <= t / p < 10 && 0 <= t % p < p
    ensures (10 * v + t / p) * p + t % p == fr * Pow10(k + 1)
  {
    var q := t / p;
    DivBounds(t, p);
    if q >= 10 {
      MulLe(10, q, p);
    }
    MulAssoc(fr, 10, Pow10(k));
    assert fr * Pow10(k + 1) == 10 * (v * p + f);
    Distribute(10 * v, q, p);
    MulAssoc(10, v, p);
  }

  /** The digit loop of `to_string` for a nonzero integer part: the digits
      of n are written from slot `start` on, least significant first. */
  method WriteDigitsReversed(digits: array<char>, start: nat, n: nat) returns (idx: nat)
    requires digits.Length == 12 && start + |LowDigits(n)| <= 11
    modifies digits
    ensures idx == start + |LowDigits(n)|
    ensures digits[start..idx] == LowDigits(n)
    ensures forall k :: 0 <= k < 12 && !(start <= k < idx) ==> digits[k] == old(digits[k])
  {
    var whole := n;
    idx := start;
    ghost var written: string := [];
    while whole != 0
      invariant start <= idx <= 11 && idx - start == |written|
      invariant digits[start..idx] == written
      invariant written + LowDigits(whole) == LowDigits(n)
      invariant forall k :: 0 <= k < 12 && !(start <= k < idx) ==> digits[k] == old(digits[k])
      decreases whole
    {
      var c := Digit(whole % 10);
      assert LowDigits(whole) == [c] + LowDigits(whole / 10);
      assert (written + [c]) + LowDigits(whole / 10) == written + LowDigits(whole);
      digits[idx] := c;
      assert digits[start..idx + 1] == written + [c];
      written := written + [c];
      idx := idx + 1;
      whole := whole / 10;
    }
    assert written == LowDigits(n);
  }

  /** The integer-digit part of `to_string`: a lone '0' for zero, otherwise
      the digits written least significant first and the written range
      reversed in place. */
  method WriteWhole(digits: array<char>, start: nat, n: nat) returns (idx: nat)
    requires digits.Length == 12 && start + |Digits10(n)| <= 11
    requires forall k :: start <= k < 12 ==> digits[k] == '\0'
    modifies digits
    ensures idx == start + |Digits10(n)|
    ensures digits[start..idx] == Digits10(n)
    ensures forall k :: 0 <= k < start ==> digits[k] == old(digits[k])
    ensures forall k :: idx <= k < 12 ==> digits[k] == '\0'
  {
    if n == 0 {
      digits[start] := '0';
      idx := start + 1;
      assert digits[start..idx] == ['0'];
    } else {
      LowDigitsReversed(n);
      idx := WriteDigitsReversed(digits, start, n);
      ReverseRange(digits, start, idx);
    }
  }

  /** The fraction part of `to_string`: from the slot after the dot up to
      the last slot, each pass multiplies the leftover fraction by ten,
      writes the part above the binary point as a digit and keeps the rest.
      The product is not stored back into T here (see `FracStepAsWritten`). */
  method WriteFraction(digits: array<char>, dot: nat, frac0: int, p: int)
    requires digits.Length == 12 && dot < 12 && p > 0 && 0 <= frac0 < p
    modifies digits
    ensures forall k :: 0 <= k <= dot ==> digits[k] == old(digits[k])
    ensures dot <= 10 ==>
              && digits[11] == old(digits[11])
              && AllDigits(digits[dot + 1..11])
              && DecimalValue(digits[dot + 1..11]) == frac0 * Pow10(10 - dot) / p
  {
    var idx := dot + 1;
    var frac := frac0;
    assert digits[dot + 1..idx] == [];
    while idx < 11
      invariant dot + 1 <= idx <= 12 && (dot <= 10 ==> idx <= 11)
      invariant 0 <= frac < p
      invariant AllDigits(digits[dot + 1..idx])
      invariant DecimalValue(digits[dot + 1..idx]) * p + frac == frac0 * Pow10(idx - dot - 1)
      invariant forall k :: 0 <= k <= dot ==> digits[k] == old(digits[k])
      invariant digits[11] == old(digits[11])
    {
      ghost var text, v, f, k := digits[dot + 1..idx], DecimalValue(digits[dot + 1..idx]), frac, idx - dot - 1;
      frac := frac * 10;
      FracStep(v, f, frac, p, frac0, k);
      ghost var q := frac / p;
      var c := Digit(frac / p);
      digits[idx] := c;
      assert digits[dot + 1..idx + 1] == text + [c];
      DecimalValueSnoc(text, c);
      frac := frac % p;
      idx := idx + 1;
      assert DecimalValue(digits[dot + 1..idx]) == 10 * v + q;
      assert (10 * v + q) * p + frac == frac0 * Pow10(k + 1);
    }
    if dot <= 10 {
      DivUnique(frac0 * Pow10(10 - dot), DecimalValue(digits[dot + 1..11]), p);
    }
  }

  /** The buffer of `to_string` filled from the parts of the value: the
      buffer starts zeroed; a negative value gets '-'; the integer digits
      follow, then the dot, then the fraction digits up to the last slot,
      which stays NUL. */
  method FillBuffer(negative: bool, whole: nat, frac: nat, p: int) returns (s: string, dot: nat)
    requires 0 <= frac < p
    requires (if negative then 1 else 0) + |Digits10(whole)| <= 11
    ensures dot == (if negative then 1 else 0) + |Digits10(whole)|
    ensures |s| == 12
    ensures (s[0] == '-') == negative
    ensures s[dot - |Digits10(whole)|..dot] == Digits10(whole)
    ensures s[dot] == '.'
    ensures dot <= 10 ==> s[11] == '\0' && AllDigits(s[dot + 1..11])
    ensures dot <= 10 ==> DecimalValue(s[dot + 1..11]) == frac * Pow10(10 - dot) / p
  {
    var digits := new char[12](_ => '\0');
    var start: nat := 0;
    if negative {
      digits[0] := '-';
      start := 1;
    }
    dot := WriteWhole(digits, start, whole);
    ghost var wholeText := digits[start..dot];
    ghost var first := digits[0];
    digits[dot] := '.';
    assert digits[start..dot] == wholeText;
    WriteFraction(digits, dot, frac, p);
    assert digits[start..dot] == wholeText;
    s := digits[..];
    assert s[0] == first;
    if !negative {
      assert first == wholeText[0];
    }
  }

  /** `to_string`, with the magnitude and the fraction digits computed
      without wrap-around (see the two as-written members below). The
      printed integer digits are those of the magnitude's integer part, and
      the fraction digits, read as a number, are the fraction truncated to
      as many decimal places as there are slots. */
  method ToString(fmt: Format, a: Fixed) returns (s: string)
    requires fmt.Valid() && IsValue(fmt, a)
    ensures |s| == 12 && DotAt(fmt, a) <= 11
    ensures (s[0] == '-') == (a.v < 0)
    ensures s[Sign(a)..DotAt(fmt, a)] == Digits10(WholeOf(fmt, a))
    ensures s[DotAt(fmt, a)] == '.'
    ensures DotAt(fmt, a) <= 10 ==>
              var fracText := s[DotAt(fmt, a) + 1..11];
              && s[11] == '\0'
              && AllDigits(fracText)
              && DecimalValue(fracText) == FracOf(fmt, a) * Pow10(|fracText|) / Pow2(fmt.frac)
  {
    DotBound(fmt, a);
    var dot;
    s, dot := FillBuffer(a.v < 0, WholeOf(fmt, a), FracOf(fmt, a), Pow2(fmt.frac));
    assert dot == DotAt(fmt, a);
    assert dot <= 10 ==> |s[dot + 1..11]| == 10 - dot;
  }

  // ---------------------------------------------------------------------
  // `to_string` as written.

  /** The integer part the digit loop starts from, as written: the
      negation `tmp = -tmp` is stored back into T before `whole_part() >>
      frac_bits()`, so the least value of a signed T stays negative. */
  function WholeAsWritten(fmt: Format, a: Fixed): (w: int)
    requires fmt.Valid() && IsValue(fmt, a)
    ensures !(fmt.signed && a.v == fmt.Lo()) ==> w == WholeOf(fmt, a)
  {
    var w: nat := fmt.width;
    Pow2Add(w - 1, 1);
    (if a.v < 0 then Neg(fmt, a).v else a.v) / Pow2(fmt.frac)
  }

  /** The character code the digit loop writes for the last digit of w,
      as written: C++ `%` takes the sign of the dividend. */
  function DigitCodeAsWritten(w: int): (code: int)
    ensures w >= 0 ==> code == 48 + w % 10
  {
    w - TruncDiv(w, 10) * 10 + 48
  }

  /** `-8.0` in `fixed<int8_t, 4>`: the negation wraps back to -128, the
      integer part is -8 and the loop writes code 40, '(' — not a digit —
      where the magnitude 8 is meant. */
  lemma MinimumPrintsNonDigit()
    ensures var fmt := Format(8, true, 4);
            && WholeAsWritten(fmt, Fixed(-128)) == -8
            && DigitCodeAsWritten(-8) == 40
            && Digits10(WholeOf(fmt, Fixed(-128))) == "8"
  {
    var fmt := Format(8, true, 4);
    Pow2Values();
    assert Pow2(4) == 16;
    assert IsValue(fmt, Fixed(-128));
    assert Wrap(fmt, 128) == -128 by {
      assert Congruent(128, -128, 256) by { CongruentByMultiple(128, -128, 1, 256); }
      WrapCongruent(fmt, 128, -128);
    }
    assert Neg(fmt, Fixed(-128)) == Fixed(-128);
    assert -128 / 16 == -8;
    assert TruncDiv(-8, 10) == 0;
    assert WholeOf(fmt, Fixed(-128)) == 8;
  }

  /** One pass of the fraction loop as written: `frac *= 10` is stored
      back into T, the digit is the arithmetic shift plus '0', and the
      mask keeps the low fraction bits. It agrees with the pass of
      `ToString` whenever 10 * frac fits in T. */
  function FracStepAsWritten(fmt: Format, frac: int): (r: (int, int))
    requires fmt.Valid()
    ensures InRange(fmt, 10 * frac) ==>
              r == (48 + (10 * frac) / Pow2(fmt.frac), (10 * frac) % Pow2(fmt.frac))
  {
    var product := Wrap(fmt, frac * 10);
    (48 + product / Pow2(fmt.frac), product % Pow2(fmt.frac))
  }

  /** 0.9375 in `fixed<int8_t, 4>` (raw 15): 15 * 10 = 150 wraps to -106,
      and the first fraction character is code 41, ')', where `ToString`
      writes '9'. */
  lemma FractionDigitWraps()
    ensures var fmt := Format(8, true, 4);
            && FracOf(fmt, Fixed(15)) == 15
            && FracStepAsWritten(fmt, 15) == (41, 6)
            && Digit(10 * 15 / Pow2(4)) == '9'
  {
    var fmt := Format(8, true, 4);
    Pow2Values();
    assert Pow2(4) == 16;
    assert Wrap(fmt, 150) == -106 by {
      assert Congruent(150, -106, 256) by { CongruentByMultiple(150, -106, 1, 256); }
      assert InRange(fmt, -106);
      WrapCongruent(fmt, 150, -106);
    }
    assert -106 / 16 == -7;
    assert -106 % 16 == 6;
  }
}
