/** The `_fixp_t` literal operator: a decimal literal `[digits][.digits]` is
    scanned into a whole-part integer and a 64-bit binary fraction, which
    the helper constructor later rounds to the target format. */
module Literal {
  import opened Arith
  import opened FixedType

  /** Why the literal is refused (an `assert` in the compile-time parser). */
  datatype ParseError = Empty | BadChar(index: nat)

  datatype Result<T> = Ok(value: T) | Err(error: ParseError)

  predicate IsDigit(c: char) {
    '0' <= c <= '9'
  }

  function DigitValue(c: char): int {
    c as int - '0' as int
  }

  /** Every character is a digit or a dot, and there is at least one. */
  predicate WellFormed(s: string) {
    |s| != 0 && forall i :: 0 <= i < |s| ==> s[i] == '.' || IsDigit(s[i])
  }

  /** The first n characters are each a digit or a dot. */
  predicate AcceptedPrefix(s: string, n: nat)
    requires n <= |s|
  {
    forall j :: 0 <= j < n ==> s[j] == '.' || IsDigit(s[j])
  }

  predicate AllDigits(ds: string) {
    forall i :: 0 <= i < |ds| ==> IsDigit(ds[i])
  }

  function Pow10(k: nat): (r: int)
    ensures r >= 1
  {
    if k == 0 then 1 else 10 * Pow10(k - 1)
  }

  /** The number a digit string spells, most significant digit first. */
  function DecimalValue(ds: string): int
  {
    if |ds| == 0 then 0 else 10 * DecimalValue(ds[..|ds| - 1]) + DigitValue(ds[|ds| - 1])
  }

  /** A k-digit decimal lies in [0, 10^k). */
  lemma {:induction false} DecimalValueBounds(ds: string)
    requires AllDigits(ds)
    ensures 0 <= DecimalValue(ds) < Pow10(|ds|)
  {
    if |ds| > 0 {
      DecimalValueBounds(ds[..|ds| - 1]);
    }
  }

  lemma DecimalValueSnoc(ds: string, c: char)
    ensures DecimalValue(ds + [c]) == 10 * DecimalValue(ds) + DigitValue(c)
  {
    assert (ds + [c])[..|ds|] == ds;
  }

  /** Index of the first dot, or the length when there is none. */
  function DotIndex(s: string): (d: nat)
    ensures d <= |s|
  {
    if |s| == 0 || s[0] == '.' then 0 else 1 + DotIndex(s[1..])
  }

  /** No dot comes before DotIndex, and a dot stands at it unless it is the
      length. */
  lemma {:induction false} DotIndexFacts(s: string)
    ensures forall j :: 0 <= j < DotIndex(s) ==> s[j] != '.'
    ensures DotIndex(s) < |s| ==> s[DotIndex(s)] == '.'
  {
    if |s| > 0 && s[0] != '.' {
      DotIndexFacts(s[1..]);
      forall j | 0 <= j < DotIndex(s)
        ensures s[j] != '.'
      {
        if j > 0 {
          assert s[j] == s[1..][j - 1];
        }
      }
    }
  }

  /** The characters of t other than dots, in order. */
  function Digits(t: string): (r: string)
    ensures |r| <= |t|
  {
    if |t| == 0 then []
    else Digits(t[..|t| - 1]) + (if t[|t| - 1] == '.' then [] else [t[|t| - 1]])
  }

  /** The digits of the whole part: everything before the first dot. */
  function WholeText(s: string): string {
    s[..DotIndex(s)]
  }

  /** The digits of the fraction: everything after the first dot, any
      further dots skipped. */
  function FracText(s: string): string {
    Digits(s[DotIndex(s)..])
  }

  /** The fraction digits met among the first i characters. */
  function FracSoFar(s: string, i: nat): string
    requires i <= |s|
  {
    if i <= DotIndex(s) then [] else Digits(s[DotIndex(s)..i])
  }

  lemma DigitsSnoc(t: string, c: char)
    ensures Digits(t + [c]) == Digits(t) + (if c == '.' then [] else [c])
  {
    assert (t + [c])[..|t|] == t;
  }

  lemma DigitsStep(s: string, d: nat, i: nat)
    requires d <= i < |s|
    ensures Digits(s[d..i + 1]) == Digits(s[d..i]) + (if s[i] == '.' then [] else [s[i]])
  {
    assert s[d..i + 1] == s[d..i] + [s[i]];
    DigitsSnoc(s[d..i], s[i]);
  }

  lemma FracSoFarStep(s: string, i: nat)
    requires i < |s|
    ensures i < DotIndex(s) || s[i] == '.' ==> FracSoFar(s, i + 1) == FracSoFar(s, i)
    ensures i >= DotIndex(s) && s[i] != '.' ==> FracSoFar(s, i + 1) == FracSoFar(s, i) + [s[i]]
  {
    var d := DotIndex(s);
    DotIndexFacts(s);
    if i == d {
      DigitsStep(s, d, i);
      assert s[d..i] == [];
      assert Digits(s[d..i + 1]) == [];
    } else if i > d {
      DigitsStep(s, d, i);
      if s[i] == '.' {
        assert Digits(s[d..i + 1]) == Digits(s[d..i]) + [];
      }
    }
  }

  lemma Pow10Bound()
    ensures Pow10(18) < Pow2(63)
  {
    assert Pow10(1) == 10;
    assert Pow10(2) == 100;
    assert Pow10(3) == 1000;
    assert Pow10(4) == 10000;
    assert Pow10(5) == 100000;
    assert Pow10(6) == 1000000;
    assert Pow10(7) == 10000000;
    assert Pow10(8) == 100000000;
    assert Pow10(9) == 1000000000;
    assert Pow10(10) == 10000000000;
    assert Pow10(11) == 100000000000;
    assert Pow10(12) == 1000000000000;
    assert Pow10(13) == 10000000000000;
    assert Pow10(14) == 100000000000000;
    assert Pow10(15) == 1000000000000000;
    assert Pow10(16) == 10000000000000000;
    assert Pow10(17) == 100000000000000000;
    assert Pow10(18) == 1000000000000000000;
    Pow2Add(31, 32);
    Pow2Values();
  }

  lemma {:induction false} Pow10Monotone(a: nat, b: nat)
    requires a <= b
    ensures Pow10(a) <= Pow10(b)
  {
    if a < b {
      Pow10Monotone(a, b - 1);
    }
  }

  /** The literal operator. The helper it returns carries the whole part and
      floor(f * 2^64 / 10^k) for the k fraction digits spelling f, the
      sign flag cleared; the 64 doubling steps of long division compute
      that binary fraction exactly. Empty input and any character other
      than a digit or a dot are refused. At most 18 digits on each side of
      the dot keep the int64 and uint64 accumulators from overflowing. */
  method ParseLiteral(s: string) returns (r: Result<Helper>)
    requires |WholeText(s)| <= 18 && |FracText(s)| <= 18
    ensures r.Err? <==> !WellFormed(s)
    ensures |s| == 0 ==> r == Err(Empty)
    ensures r.Err? && r.error.BadChar? ==>
      r.error.index < |s| && s[r.error.index] != '.' && !IsDigit(s[r.error.index])
    ensures r.Ok? ==>
      && r.value.Valid()
      && !r.value.negative
      && r.value.whole == DecimalValue(WholeText(s))
      && r.value.frac == DecimalValue(FracText(s)) * Pow2(64) / Pow10(|FracText(s)|)
  {
    if |s| == 0 {
      return Err(Empty);
    }
    var bad, whole, frac, one := ScanDigits(s);
    if bad < |s| {
      return Err(BadChar(bad));
    }
    DecimalValueBounds(WholeText(s));
    DecimalValueBounds(FracText(s));
    Pow10Monotone(|WholeText(s)|, 18);
    Pow10Monotone(|FracText(s)|, 18);
    Pow10Bound();
    Pow2Wide();
    var binFrac := BinaryFraction(frac, one);
    r := Ok(Helper(whole, binFrac, false));
  }

  /** The first loop of the literal operator: one pass over the characters,
      accumulating the digits before the first dot into `whole` and those
      after it into `frac`, with `one` the matching power of ten. It stops
      at the first character that is neither a digit nor a dot and returns
      its index in `bad` (the length when there is none). */
  method ScanDigits(s: string) returns (bad: nat, whole: int, frac: int, one: int)
    ensures bad <= |s|
    ensures AcceptedPrefix(s, bad)
    ensures bad < |s| ==> s[bad] != '.' && !IsDigit(s[bad])
    ensures bad == |s| ==>
      && AllDigits(WholeText(s)) && AllDigits(FracText(s))
      && whole == DecimalValue(WholeText(s))
      && frac == DecimalValue(FracText(s))
      && one == Pow10(|FracText(s)|)
  {
    var beforeDot := true;
    whole, frac, one := 0, 0, 1;
    for i := 0 to |s|
      invariant beforeDot == (i <= DotIndex(s))
      invariant AcceptedPrefix(s, i)
      invariant whole == DecimalValue(WholeSoFar(s, i))
      invariant frac == DecimalValue(FracSoFar(s, i))
      invariant one == Pow10(|FracSoFar(s, i)|)
      invariant AllDigits(FracSoFar(s, i))
    {
      var c := s[i];
      if !(c == '.' || IsDigit(c)) {
        return i, whole, frac, one;
      }
      ScanAdvance(s, i, whole, frac, one);
      if c != '.' {
        if beforeDot {
          whole := whole * 10 + DigitValue(c);
        } else {
          frac := frac * 10 + DigitValue(c);
          one := one * 10;
        }
      } else {
        beforeDot := false;
      }
    }
    bad := |s|;
    ScanDone(s);
  }

  /** The whole-part digits met among the first i characters. */
  function WholeSoFar(s: string, i: nat): string
    requires i <= |s|
  {
    if i <= DotIndex(s) then s[..i] else s[..DotIndex(s)]
  }

  lemma WholeStep(s: string, i: nat)
    requires i < |s|
    ensures i < DotIndex(s) ==> s[i] != '.' && WholeSoFar(s, i + 1) == WholeSoFar(s, i) + [s[i]]
    ensures i == DotIndex(s) ==> s[i] == '.'
    ensures i >= DotIndex(s) ==> WholeSoFar(s, i + 1) == WholeSoFar(s, i)
  {
    DotIndexFacts(s);
    if i < DotIndex(s) {
      assert s[..i + 1] == s[..i] + [s[i]];
    }
  }

  lemma FracDigitsStep(s: string, i: nat)
    requires i < |s| && (s[i] == '.' || IsDigit(s[i]))
    requires AllDigits(FracSoFar(s, i))
    ensures AllDigits(FracSoFar(s, i + 1))
  {
    FracSoFarStep(s, i);
  }

  /** One accepted character carries the loop's accumulators from the
      first i characters to the first i + 1. */
  lemma ScanAdvance(s: string, i: nat, whole: int, frac: int, one: int)
    requires i < |s| && (s[i] == '.' || IsDigit(s[i]))
    requires whole == DecimalValue(WholeSoFar(s, i))
    requires frac == DecimalValue(FracSoFar(s, i))
    requires one == Pow10(|FracSoFar(s, i)|)
    requires AllDigits(FracSoFar(s, i))
    ensures i == DotIndex(s) ==> s[i] == '.'
    ensures i < DotIndex(s) ==>
      && s[i] != '.'
      && whole * 10 + DigitValue(s[i]) == DecimalValue(WholeSoFar(s, i + 1))
      && frac == DecimalValue(FracSoFar(s, i + 1))
      && one == Pow10(|FracSoFar(s, i + 1)|)
    ensures i >= DotIndex(s) && s[i] == '.' ==>
      && whole == DecimalValue(WholeSoFar(s, i + 1))
      && frac == DecimalValue(FracSoFar(s, i + 1))
      && one == Pow10(|FracSoFar(s, i + 1)|)
    ensures i >= DotIndex(s) && s[i] != '.' ==>
      && whole == DecimalValue(WholeSoFar(s, i + 1))
      && frac * 10 + DigitValue(s[i]) == DecimalValue(FracSoFar(s, i + 1))
      && one * 10 == Pow10(|FracSoFar(s, i + 1)|)
    ensures AllDigits(FracSoFar(s, i + 1))
  {
    WholeStep(s, i);
    FracSoFarStep(s, i);
    FracDigitsStep(s, i);
    if i < DotIndex(s) {
      DecimalValueSnoc(WholeSoFar(s, i), s[i]);
    } else if s[i] != '.' {
      DecimalValueSnoc(FracSoFar(s, i), s[i]);
    }
  }

  /** After the whole string the partial texts are the full ones, and when
      every character was accepted the whole part holds digits only. */
  lemma ScanDone(s: string)
    ensures WholeSoFar(s, |s|) == WholeText(s)
    ensures FracSoFar(s, |s|) == FracText(s)
    ensures AcceptedPrefix(s, |s|) ==> AllDigits(WholeText(s))
  {
    var d := DotIndex(s);
    DotIndexFacts(s);
    assert s[d..] == s[d..|s|];
    if d == |s| {
      assert s[d..] == [];
      assert s[..d] == s;
    }
  }

  lemma DoublingStep(b: int, f: int, one: int, x: int, p: int)
    requires b * one + f == x * p
    ensures (2 * b) * one + 2 * f == x * (2 * p)
    ensures (2 * b + 1) * one + (2 * f - one) == x * (2 * p)
  {
  }

  /** The second loop of the literal operator: 64 steps of binary long
      division of frac by one, each doubling the remainder and taking one
      quotient bit. The result is floor(frac * 2^64 / one). */
  method BinaryFraction(frac0: int, one: int) returns (binFrac: int)
    requires 0 <= frac0 < one < Pow2(63)
    ensures 0 <= binFrac < Pow2(64)
    ensures binFrac == frac0 * Pow2(64) / one
  {
    binFrac := 0;
    var frac := frac0;
    var k := 0;
    while k < 64
      invariant 0 <= k <= 64
      invariant 0 <= frac < one
      invariant 0 <= binFrac < Pow2(k)
      invariant binFrac * one + frac == frac0 * Pow2(k)
    {
      assert Pow2(k + 1) == 2 * Pow2(k);
      DoublingStep(binFrac, frac, one, frac0, Pow2(k));
      binFrac := binFrac * 2;
      frac := frac * 2;
      if frac >= one {
        binFrac := binFrac + 1;
        frac := frac - one;
      }
      k := k + 1;
    }
    DivUnique(frac0 * Pow2(64), binFrac, one);
  }
}
