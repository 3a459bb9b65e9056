/**
 Binary floating-point formats, and correct rounding: roundTiesToEven, section
 4.3.1 of IEEE 754-2019. A non-negative float is its bit pattern, a number k; the
 patterns from 0 up to infinity are in the order of their values.
 */
module FloatFormat {
  import opened Powers

  /** `binary_format<T>`: explicit mantissa bits, minimum exponent, infinite power, digits kept. */
  datatype Format = Format(mantBits: nat, minExp: int, infPower: nat, maxDigits: nat) {
    function Bias(): int {
      mantBits - minExp
    }

    function Hidden(): nat {
      Pow(2, mantBits)
    }

    function Infinity(): nat {
      infPower * Hidden()
    }
  }

  const BINARY64 := Format(52, -1023, 0x7FF, 769)
  const BINARY32 := Format(23, -127, 0xFF, 114)

  /** What the algorithms need of a format. */
  predicate Sound(f: Format) {
    && 1 <= f.mantBits < 63
    && f.infPower >= 2
    && f.Bias() >= 65
    && f.maxDigits >= 1
    // no halfway point between floats has more than maxDigits significant digits
    && Pow(2, f.mantBits + 2) * Pow(5, f.Bias()) <= Pow(10, f.maxDigits)
    && Pow(2, f.mantBits + f.infPower) <= Pow(10, f.maxDigits) * Pow(2, f.Bias())
  }

  lemma MantissaAndExponent(f: Format, e: nat, m: nat)
    requires m < f.Hidden()
    ensures (e * f.Hidden() + m) / f.Hidden() == e && (e * f.Hidden() + m) % f.Hidden() == m
  {
    DivModIs(e * f.Hidden() + m, f.Hidden(), e, m);
  }

  /** The value of pattern k, counted in smallest subnormals (2^(1 - bias)). */
  function Units(f: Format, k: nat): nat
    requires f.Hidden() > 0
  {
    var e, m := k / f.Hidden(), k % f.Hidden();
    if e == 0 then m else (f.Hidden() + m) * Pow(2, e - 1)
  }

  /** The distance from pattern k to the next. */
  function Ulp(f: Format, k: nat): nat
    requires f.Hidden() > 0
  {
    var e := k / f.Hidden();
    if e == 0 then 1 else Pow(2, e - 1)
  }

  lemma HiddenPositive(f: Format)
    ensures f.Hidden() > 0
  {
    PowPositive(2, f.mantBits);
  }

  lemma UnitsAt(f: Format, e: nat, m: nat)
    requires m < f.Hidden()
    ensures var k := e * f.Hidden() + m;
      && Units(f, k) == (if e == 0 then m else (f.Hidden() + m) * Pow(2, e - 1))
      && Ulp(f, k) == (if e == 0 then 1 else Pow(2, e - 1))
  {
    MantissaAndExponent(f, e, m);
  }

  lemma NextProducts(h: nat, m: nat, p: nat)
    ensures (h + (m + 1)) * p == (h + m) * p + p
    ensures h * (2 * p) == (h + (h - 1)) * p + p
  {
    assert h * (2 * p) == (h + h) * p;
  }

  lemma UnitsNextAt(f: Format, h: nat, e: nat, m: nat, k: nat)
    requires h == f.Hidden() && m < h && k == e * h + m
    ensures Units(f, k + 1) == Units(f, k) + Ulp(f, k)
    ensures Ulp(f, k) > 0
  {
    UnitsAt(f, e, m);
    if e > 0 {
      PowPositive(2, e - 1);
      NextProducts(h, m, Pow(2, e - 1));
    }
    if m + 1 < h {
      UnitsAt(f, e, m + 1);
    } else {
      assert k + 1 == (e + 1) * h + 0;
      UnitsAt(f, e + 1, 0);
    }
  }

  lemma UnitsNext(f: Format, k: nat)
    requires f.Hidden() > 0
    ensures Units(f, k + 1) == Units(f, k) + Ulp(f, k)
    ensures Ulp(f, k) > 0
  {
    UnitsNextAt(f, f.Hidden(), k / f.Hidden(), k % f.Hidden(), k);
  }

  lemma {:induction false} UnitsIncrease(f: Format, j: nat, k: nat)
    requires f.Hidden() > 0 && j < k
    ensures Units(f, j) < Units(f, k)
    decreases k
  {
    UnitsNext(f, k - 1);
    if j < k - 1 { UnitsIncrease(f, j, k - 1); }
  }

  /** Twice the point halfway from pattern k to the next, in smallest subnormals. */
  function Half(f: Format, k: nat): nat
    requires f.Hidden() > 0
  {
    Units(f, k) + Units(f, k + 1)
  }

  // Correct rounding of the number x/d half units (x/(2d) smallest subnormals).

  /** k is the float x/d rounds to: x/d lies between the halfway points around k, on one only if k is even. */
  predicate Nearest(f: Format, x: nat, d: nat, k: nat)
    requires f.Hidden() > 0
  {
    && k <= f.Infinity()
    && (k > 0 ==> Half(f, k - 1) * d <= x && (x == Half(f, k - 1) * d ==> k % 2 == 0))
    && (k < f.Infinity() ==> x <= Half(f, k) * d && (x == Half(f, k) * d ==> k % 2 == 0))
  }

  function Distance(f: Format, x: nat, d: nat, k: nat): nat
    requires f.Hidden() > 0
  {
    if x <= 2 * Units(f, k) * d then 2 * Units(f, k) * d - x else x - 2 * Units(f, k) * d
  }

  /** Nearest says what it should: no other float is closer, and at equal distance k is the even one. */
  lemma NearestIsClosest(f: Format, x: nat, d: nat, k: nat, j: nat)
    requires f.Hidden() > 0 && d > 0
    requires Nearest(f, x, d, k) && j <= f.Infinity() && j != k
    ensures Distance(f, x, d, k) <= Distance(f, x, d, j)
    ensures Distance(f, x, d, k) == Distance(f, x, d, j) ==> k % 2 == 0
  {
    if j < k {
      ClosestBelow(f, x, d, k, j);
    } else {
      ClosestAbove(f, x, d, k, j);
    }
  }

  lemma Products(d: nat, a: nat, b: nat)
    ensures (a + b) * d == a * d + b * d && 2 * a * d == a * d + a * d
    ensures a <= b ==> a * d <= b * d
  {
    if a <= b { MulLessEq(d, a, b); }
  }

  lemma ClosestBelow(f: Format, x: nat, d: nat, k: nat, j: nat)
    requires f.Hidden() > 0 && d > 0 && j < k && Nearest(f, x, d, k)
    ensures Distance(f, x, d, k) <= Distance(f, x, d, j)
    ensures Distance(f, x, d, k) == Distance(f, x, d, j) ==> k % 2 == 0
  {
    if j < k - 1 { UnitsIncrease(f, j, k - 1); }
    UnitsIncrease(f, k - 1, k);
    var a, b, c := Units(f, j), Units(f, k - 1), Units(f, k);
    Products(d, b, c);
    Products(d, a, b);
    Products(d, c, b);
    MulLess(d, b, c);
  }

  lemma ClosestAbove(f: Format, x: nat, d: nat, k: nat, j: nat)
    requires f.Hidden() > 0 && d > 0 && k < j <= f.Infinity() && Nearest(f, x, d, k)
    ensures Distance(f, x, d, k) <= Distance(f, x, d, j)
    ensures Distance(f, x, d, k) == Distance(f, x, d, j) ==> k % 2 == 0
  {
    if k + 1 < j { UnitsIncrease(f, k + 1, j); }
    UnitsIncrease(f, k, k + 1);
    var a, b, c := Units(f, k), Units(f, k + 1), Units(f, j);
    Products(d, a, b);
    Products(d, b, c);
    Products(d, c, b);
    MulLess(d, a, b);
  }

  /** No number rounds to two floats. */
  lemma NearestUnique(f: Format, x: nat, d: nat, j: nat, k: nat)
    requires f.Hidden() > 0 && d > 0 && Nearest(f, x, d, j) && Nearest(f, x, d, k)
    ensures j == k
  {
    if j < k {
      Between(f, x, d, j, k);
    } else if k < j {
      Between(f, x, d, k, j);
    }
  }

  /** Of two floats, x/d can round to both only if they are neighbours, and it is halfway between. */
  lemma Between(f: Format, x: nat, d: nat, j: nat, k: nat)
    requires f.Hidden() > 0 && d > 0 && j < k
    requires Nearest(f, x, d, j) && Nearest(f, x, d, k)
    ensures j == k - 1 && x == Half(f, j) * d
  {
    if j < k - 1 {
      UnitsIncrease(f, j, k - 1);
      UnitsIncrease(f, j + 1, k);
      MulLess(d, Half(f, j), Half(f, k - 1));
    }
  }

  // The two formats are sound.

  lemma FivesBelowTwos()
    ensures Pow(5, 31) <= Pow(2, 72) && Pow(5, 27) <= Pow(2, 63) && Pow(5, 5) <= Pow(2, 12)
  {
    assert Pow(5, 9) == 1953125 && Pow(2, 9) == 512;
    PowAdd(5, 9, 9);
    PowAdd(5, 18, 9);
    PowAdd(5, 27, 4);
    assert Pow(5, 4) == 625;
    PowAdd(2, 9, 9);
    PowAdd(2, 18, 18);
    PowAdd(2, 36, 27);
    PowAdd(2, 18, 9);
    PowAdd(2, 36, 36);
  }

  lemma {:induction false} PowBaseMonotone(a: nat, b: nat, e: nat)
    requires a <= b
    ensures Pow(a, e) <= Pow(b, e)
  {
    if e > 0 {
      PowBaseMonotone(a, b, e - 1);
      MulLessEq(a, Pow(a, e - 1), Pow(b, e - 1));
      MulLessEq(Pow(b, e - 1), a, b);
    }
  }

  lemma ProductBelow(a: nat, b: nat, c: nat, d: nat)
    requires a <= c && b <= d
    ensures a * b <= c * d
  {
    MulLessEq(a, b, d);
    MulLessEq(d, a, c);
  }

  lemma EightsBelowTens(n: nat)
    ensures Pow(2, 3 * n) <= Pow(10, n)
  {
    PowPow(2, 3, n);
    assert Pow(2, 3) == 8;
    PowBaseMonotone(8, 10, n);
  }

  lemma Fives306()
    ensures Pow(5, 306) <= Pow(2, 711)
  {
    FivesBelowTwos();
    PowPow(5, 31, 9);
    PowPow(2, 72, 9);
    PowBaseMonotone(Pow(5, 31), Pow(2, 72), 9);
    PowAdd(5, 279, 27);
    PowAdd(2, 648, 63);
    ProductBelow(Pow(5, 279), Pow(5, 27), Pow(2, 648), Pow(2, 63));
  }

  /** 5^(n+k) * 2^b <= 10^n when 5^k <= 2^c and b + c <= n. */
  lemma FivesFit(n: nat, k: nat, b: nat, c: nat)
    requires Pow(5, k) <= Pow(2, c) && b + c <= n
    ensures Pow(2, b) * Pow(5, n + k) <= Pow(10, n)
  {
    PowAdd(5, n, k);
    PowMul(2, 5, n);
    PowAdd(2, b, c);
    PowMonotone(2, b + c, n);
    ThreeFactors(Pow(2, b), Pow(5, n), Pow(5, k), Pow(2, c), Pow(2, n));
  }

  lemma ThreeFactors(x: nat, y: nat, z: nat, w: nat, t: nat)
    requires z <= w && x * w <= t
    ensures x * (y * z) <= t * y
  {
    MulLessEq(x, z, w);
    MulLessEq(y, x * z, t);
    assert x * (y * z) == y * (x * z);
  }

  lemma TwosFit(a: nat, n: nat, b: nat)
    requires a <= 3 * n + b
    ensures Pow(2, a) <= Pow(10, n) * Pow(2, b)
  {
    hide *;
    PowMonotone(2, a, 3 * n + b);
    PowAdd(2, 3 * n, b);
    EightsBelowTens(n);
    ProductBelow(Pow(2, 3 * n), Pow(2, b), Pow(10, n), Pow(2, b));
  }

  lemma Binary64IsSound()
    ensures Sound(BINARY64)
  {
    Fives306();
    FivesFit(769, 306, 54, 711);
    TwosFit(2099, 769, 1075);
  }

  lemma Binary32IsSound()
    ensures Sound(BINARY32)
  {
    FivesBelowTwos();
    PowAdd(5, 31, 5);
    PowAdd(2, 72, 12);
    ProductBelow(Pow(5, 31), Pow(5, 5), Pow(2, 72), Pow(2, 12));
    FivesFit(114, 36, 25, 84);
    TwosFit(278, 114, 150);
  }
}
