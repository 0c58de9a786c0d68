/** Integer facts shared by the fixed-point model: powers of two, the C++
    truncating division, and congruences modulo a power of two. */
module Arith {

  /** 2^n; a left shift by n multiplies by Pow2(n). */
  function Pow2(n: nat): (r: int)
    ensures r >= 1
  {
    if n == 0 then 1 else 2 * Pow2(n - 1)
  }

  lemma {:induction false} Pow2Add(a: nat, b: nat)
    ensures Pow2(a + b) == Pow2(a) * Pow2(b)
  {
    if a > 0 {
      Pow2Add(a - 1, b);
      assert Pow2(a + b) == 2 * Pow2(a - 1 + b);
    }
  }

  lemma {:induction false} Pow2Monotone(a: nat, b: nat)
    requires a <= b
    ensures Pow2(a) <= Pow2(b)
  {
    if a < b {
      Pow2Monotone(a, b - 1);
    }
  }

  lemma Pow2Strict(a: nat, b: nat)
    requires a < b
    ensures 2 * Pow2(a) <= Pow2(b)
  {
    Pow2Monotone(a + 1, b);
  }

  /** Powers of two are ordered like their exponents. */
  lemma Pow2Order(a: nat, b: nat)
    ensures a <= b <==> Pow2(a) <= Pow2(b)
  {
    if a <= b {
      Pow2Monotone(a, b);
    } else {
      Pow2Strict(b, a);
    }
  }

  lemma Pow2Values()
    ensures Pow2(7) == 128 && Pow2(8) == 256
    ensures Pow2(15) == 32768 && Pow2(16) == 65536
    ensures Pow2(31) == 2147483648 && Pow2(32) == 4294967296
  {
    Pow2Add(8, 8);
    Pow2Add(16, 16);
    Pow2Add(15, 16);
    Pow2Add(7, 8);
  }

  /** The bounds of the 64-bit integer types. */
  lemma Pow2Wide()
    ensures Pow2(63) == 0x8000_0000_0000_0000 && Pow2(64) == 0x1_0000_0000_0000_0000
  {
    Pow2Values();
    Pow2Add(31, 32);
    Pow2Add(32, 32);
  }

  /** C++ integer division `/`: the quotient is truncated toward zero. */
  function TruncDiv(x: int, y: int): (q: int)
    requires y != 0
    ensures Abs(q) == Abs(x) / Abs(y)
    ensures q != 0 ==> ((q < 0) <==> ((x < 0) != (y < 0)))
  {
    var m := Abs(x) / Abs(y);
    DivNonneg(Abs(x), Abs(y));
    if (x < 0) != (y < 0) then -m else m
  }

  lemma DivNonneg(a: int, b: int)
    requires a >= 0 && b > 0
    ensures a / b >= 0
  {
  }

  function Abs(x: int): nat
  {
    if x < 0 then -x else x
  }

  lemma AbsMul(a: int, b: int)
    ensures Abs(a * b) == Abs(a) * Abs(b)
    ensures a * b < 0 <==> (a != 0 && b != 0 && ((a < 0) != (b < 0)))
  {
    if a < 0 && b < 0 {
      assert a * b == (-a) * (-b);
    } else if a < 0 && b > 0 {
      assert a * b == -((-a) * b);
    } else if a > 0 && b < 0 {
      assert a * b == -(a * (-b));
    } else if a > 0 && b > 0 {
      assert a * b > 0;
    }
  }

  /** C++ division of an exact multiple gives back the factor. */
  lemma TruncDivExact(q: int, m: int)
    requires m != 0
    ensures TruncDiv(q * m, m) == q
  {
    AbsMul(q, m);
    MulDivExact(Abs(q), Abs(m));
  }

  /** (a * b) * (c * d) == (a * c) * (b * d). */
  lemma MulShuffle(a: int, b: int, c: int, d: int)
    ensures (a * b) * (c * d) == (a * c) * (b * d)
  {
    MulAssoc(a, b, c * d);
    MulAssoc(b, c, d);
    assert b * c == c * b;
    MulAssoc(c, b, d);
    MulAssoc(a, c, b * d);
  }

  lemma MulLe(a: int, b: int, m: int)
    requires m > 0 && a <= b
    ensures a * m <= b * m
  {
    assert b * m - a * m == (b - a) * m;
  }

  lemma MulMono(a: int, b: int, m: int)
    requires m > 0
    ensures a <= b ==> a * m <= b * m
    ensures a < b ==> a * m + m <= b * m
  {
    if a <= b {
      MulLe(a, b, m);
    }
    if a < b {
      MulLe(a + 1, b, m);
    }
  }

  /** A nonzero multiple of m is at least m away from zero. */
  lemma MultipleInRange(j: int, m: int)
    requires m > 0
    ensures j == 0 || j * m >= m || j * m <= -m
  {
    if j >= 1 {
      MulLe(1, j, m);
    } else if j <= -1 {
      MulLe(j, -1, m);
    }
  }

  /** Adding a multiple of m does not change the Euclidean remainder. */
  lemma ModShift(x: int, k: int, m: int)
    requires m > 0
    ensures (x + k * m) % m == x % m
  {
    var y := x + k * m;
    assert y == (y / m) * m + y % m;
    assert x == (x / m) * m + x % m;
    assert y % m - x % m == (x / m + k - y / m) * m;
    MultipleInRange(x / m + k - y / m, m);
  }

  /** The remainder is the unique value in [0, m) congruent to x. */
  lemma ModUnique(x: int, r: int, k: int, m: int)
    requires m > 0 && 0 <= r < m
    requires x == r + k * m
    ensures x % m == r
  {
    ModShift(r, k, m);
    var q := r / m;
    assert r == q * m + r % m;
    MultipleInRange(q, m);
  }

  lemma MulDivExact(q: int, m: int)
    requires m > 0
    ensures (q * m) / m == q && (q * m) % m == 0
  {
    ModUnique(q * m, 0, q, m);
  }

  /** Floor division of a quotient by m keeps the part above. */
  lemma DivBounds(x: int, m: int)
    requires m > 0
    ensures (x / m) * m <= x < (x / m) * m + m
  {
  }

  lemma DivUnique(x: int, q: int, m: int)
    requires m > 0
    requires q * m <= x < q * m + m
    ensures x / m == q
  {
    ModUnique(x, x - q * m, q, m);
  }

  lemma MulAssoc(t: int, q: int, p: int)
    ensures (t * q) * p == t * (q * p)
  {
  }

  lemma Distribute(a: int, b: int, c: int)
    ensures (a + b) * c == a * c + b * c
  {
  }

  lemma DivDivPositive(x: int, p: int, q: int)
    requires p > 0 && q > 0
    ensures x / p / q == x / (p * q)
  {
    var u := x / p;
    var t := u / q;
    DivBounds(x, p);
    DivBounds(u, q);
    MulLe(t * q, u, p);
    MulLe(u, t * q + q - 1, p);
    MulAssoc(t, q, p);
    assert (t * q + q - 1) * p == (t * q) * p + q * p - p;
    assert t * (q * p) <= x < t * (q * p) + q * p;
    assert q * p == p * q;
    DivUnique(x, t, p * q);
  }

  /** Shifting right by a then by b is shifting right by a + b. */
  lemma DivDiv(x: int, a: nat, b: nat)
    ensures x / Pow2(a) / Pow2(b) == x / Pow2(a + b)
  {
    Pow2Add(a, b);
    DivDivPositive(x, Pow2(a), Pow2(b));
  }

  /** x and y are congruent modulo m: they agree once reduced to m bits. */
  predicate Congruent(x: int, y: int, m: int)
    requires m > 0
  {
    (x - y) % m == 0
  }

  lemma CongruentByMultiple(x: int, y: int, k: int, m: int)
    requires m > 0 && x - y == k * m
    ensures Congruent(x, y, m)
  {
    MulDivExact(k, m);
  }

  lemma MultipleOfCongruent(x: int, y: int, m: int)
    requires m > 0 && Congruent(x, y, m)
    ensures x - y == ((x - y) / m) * m
  {
  }

  lemma CongruentSymmetric(x: int, y: int, m: int)
    requires m > 0 && Congruent(x, y, m)
    ensures Congruent(y, x, m)
  {
    MultipleOfCongruent(x, y, m);
    CongruentByMultiple(y, x, -((x - y) / m), m);
  }

  lemma CongruentTransitive(x: int, y: int, z: int, m: int)
    requires m > 0 && Congruent(x, y, m) && Congruent(y, z, m)
    ensures Congruent(x, z, m)
  {
    MultipleOfCongruent(x, y, m);
    MultipleOfCongruent(y, z, m);
    CongruentByMultiple(x, z, (x - y) / m + (y - z) / m, m);
  }

  lemma CongruentAdd(x: int, y: int, x': int, y': int, m: int)
    requires m > 0 && Congruent(x, x', m) && Congruent(y, y', m)
    ensures Congruent(x + y, x' + y', m)
  {
    MultipleOfCongruent(x, x', m);
    MultipleOfCongruent(y, y', m);
    CongruentByMultiple(x + y, x' + y', (x - x') / m + (y - y') / m, m);
  }

  lemma CongruentNeg(x: int, x': int, m: int)
    requires m > 0 && Congruent(x, x', m)
    ensures Congruent(-x, -x', m)
  {
    MultipleOfCongruent(x, x', m);
    CongruentByMultiple(-x, -x', -((x - x') / m), m);
  }

  lemma CongruentMul(x: int, x': int, c: int, m: int)
    requires m > 0 && Congruent(x, x', m)
    ensures Congruent(x * c, x' * c, m)
  {
    var k := (x - x') / m;
    MultipleOfCongruent(x, x', m);
    assert x * c - x' * c == (x - x') * c == (k * c) * m;
    CongruentByMultiple(x * c, x' * c, k * c, m);
  }

  lemma EuclidCongruent(x: int, m: int)
    requires m > 0
    ensures 0 <= x % m < m
    ensures Congruent(x, x % m, m)
  {
    CongruentByMultiple(x, x % m, x / m, m);
  }

  lemma InRangeMod(x: int, m: int)
    requires m > 0 && 0 <= x < m
    ensures x % m == x
  {
    ModUnique(x, x, 0, m);
  }

  /** The representative of x in the window [lo, lo + m): what storing x
      into an m-valued machine integer whose least value is lo gives. */
  function Reduce(lo: int, m: int, x: int): (r: int)
    requires m > 0
    ensures lo <= r < lo + m
    ensures Congruent(x, r, m)
    ensures lo <= x < lo + m ==> r == x
  {
    EuclidCongruent(x - lo, m);
    CongruentAdd(x - lo, lo, (x - lo) % m, lo, m);
    if lo <= x < lo + m then InRangeMod(x - lo, m); (x - lo) % m + lo else (x - lo) % m + lo
  }

  /** Congruent integers have the same representative. */
  lemma {:induction false} ReduceCongruent(lo: int, m: int, x: int, y: int)
    requires m > 0 && Congruent(x, y, m)
    ensures Reduce(lo, m, x) == Reduce(lo, m, y)
  {
    MultipleOfCongruent(x, y, m);
    ModShift(y - lo, (x - y) / m, m);
    assert x - lo == y - lo + ((x - y) / m) * m;
  }

  /** A multiple of p at most p below v is v minus its remainder. */
  lemma SplitMod(v: int, w: int, p: int)
    requires p > 0 && w % p == 0 && w <= v < w + p
    ensures w + v % p == v
  {
    assert w == (w / p) * p + w % p;
    ModUnique(v, v - w, w / p, p);
  }

  /** The number of binary digits of n: n lies in [2^(r-1), 2^r), and
      zero has none. */
  function BitLength(n: nat): (r: nat)
    ensures (n == 0) == (r == 0)
    ensures n > 0 ==> Pow2(r - 1) <= n < Pow2(r)
  {
    if n == 0 then 0 else 1 + BitLength(n / 2)
  }

  /** The bit length is determined by the power-of-two interval. */
  lemma BitLengthUnique(n: nat, k: nat)
    requires Pow2(k) <= n < Pow2(k + 1)
    ensures BitLength(n) == k + 1
  {
    var r := BitLength(n);
    Pow2Order(r, k);
    Pow2Order(k + 1, r - 1);
  }

  lemma BitLengthBound(n: nat, w: nat)
    requires n < Pow2(w)
    ensures BitLength(n) <= w
  {
    if n > 0 {
      Pow2Order(w, BitLength(n) - 1);
    }
  }
}
