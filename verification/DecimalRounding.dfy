/**
 Rounding decimal numbers a * 10^g to floats: comparison with halfway points, and
 why digits beyond the format's maximum cannot be told apart by any of them.
 */
module DecimalRounding {
  import opened Powers
  import opened FloatFormat

  function TenUp(g: int): nat {
    if g >= 0 then Pow(10, g) else 1
  }

  function TenDown(g: int): nat {
    if g < 0 then Pow(10, -g) else 1
  }

  function Sign(x: int): int {
    if x < 0 then -1 else if x > 0 then 1 else 0
  }

  /** How a * 10^g compares with h half units (h * 2^-bias). */
  function Compare(f: Format, a: nat, g: int, h: nat): int
    requires f.Bias() >= 0
  {
    Sign(a * Pow(2, f.Bias()) * TenUp(g) - h * TenDown(g))
  }

  /** k is the float that a * 10^g rounds to. */
  predicate RoundsTo(f: Format, a: nat, g: int, k: nat)
    requires f.Bias() >= 0 && f.Hidden() > 0
  {
    Nearest(f, a * Pow(2, f.Bias()) * TenUp(g), TenDown(g), k)
  }

  lemma TensPositive(g: int)
    ensures TenUp(g) > 0 && TenDown(g) > 0
  {
    if g >= 0 { PowPositive(10, g); } else { PowPositive(10, -g); }
  }

  lemma SignScale(p: nat, x: int, y: int)
    requires p > 0
    ensures Sign(p * x - p * y) == Sign(x - y)
  {
    MulCompare(p, x, y);
  }

  lemma CompareTen(f: Format, a: nat, g: int, h: nat)
    requires f.Bias() >= 0
    ensures Compare(f, a, g, h) == Compare(f, 10 * a, g - 1, h)
  {
    var p := Pow(2, f.Bias());
    if g >= 1 {
      TenOut(a, p, TenUp(g - 1));
    } else {
      assert TenDown(g - 1) == 10 * TenDown(g);
      TenOut(h, 1, TenDown(g));
      SignScale(10, a * p, h * TenDown(g));
      assert (10 * a) * p == 10 * (a * p);
    }
  }

  lemma TenOut(a: nat, p: nat, t: nat)
    ensures a * p * (10 * t) == (10 * a) * p * t
    ensures a * (10 * t) == 10 * (a * t)
  {
    assert a * p * (10 * t) == (a * p * 10) * t;
  }

  /** Writing a number with c more decimal places changes no comparison. */
  lemma {:induction false} CompareRescale(f: Format, a: nat, g: int, h: nat, c: nat)
    requires f.Bias() >= 0
    ensures Compare(f, a, g, h) == Compare(f, a * Pow(10, c), g - c, h)
  {
    if c > 0 {
      var p := Pow(10, c - 1);
      assert Pow(10, c) == 10 * p;
      hide Pow, Compare;
      var b: nat := TenTimesMore(a, p);
      CompareRescale(f, a, g, h, c - 1);
      CompareTen(f, b, g - (c - 1), h);
    } else {
      assert Pow(10, 0) == 1;
    }
  }

  lemma TenTimesMore(a: nat, p: nat) returns (b: nat)
    ensures b == a * p && 10 * b == a * (10 * p)
  {
    b := a * p;
  }

  lemma CompareMonotone(f: Format, a: nat, b: nat, g: int, h: nat)
    requires f.Bias() >= 0 && a < b
    ensures Compare(f, b, g, h) <= 0 ==> Compare(f, a, g, h) < 0
    ensures Compare(f, a, g, h) >= 0 ==> Compare(f, b, g, h) > 0
  {
    TensPositive(g);
    PowPositive(2, f.Bias());
    MulLess(Pow(2, f.Bias()), a, b);
    MulLess(TenUp(g), a * Pow(2, f.Bias()), b * Pow(2, f.Bias()));
  }

  lemma CompareMonotoneHalf(f: Format, a: nat, g: int, h: nat, j: nat)
    requires f.Bias() >= 0 && h <= j
    ensures Compare(f, a, g, j) >= 0 ==> Compare(f, a, g, h) >= 0
    ensures Compare(f, a, g, h) < 0 ==> Compare(f, a, g, j) < 0
  {
    MulLessEq(TenDown(g), h, j);
  }

  /** The rounded float depends only on how the number compares with the halfway points. */
  lemma RoundsByComparison(f: Format, a: nat, g: int, k: nat)
    requires f.Bias() >= 0 && f.Hidden() > 0
    ensures RoundsTo(f, a, g, k) <==>
      && k <= f.Infinity()
      && (k > 0 ==> var c := Compare(f, a, g, Half(f, k - 1)); c >= 0 && (c == 0 ==> k % 2 == 0))
      && (k < f.Infinity() ==> var c := Compare(f, a, g, Half(f, k)); c <= 0 && (c == 0 ==> k % 2 == 0))
  {}

  lemma SameComparisonsRoundAlike(f: Format, a: nat, g: int, b: nat, i: int, k: nat)
    requires f.Bias() >= 0 && f.Hidden() > 0
    requires forall j | 0 <= j < f.Infinity() :: Compare(f, a, g, Half(f, j)) == Compare(f, b, i, Half(f, j))
    ensures RoundsTo(f, a, g, k) <==> RoundsTo(f, b, i, k)
  {
    RoundsByComparison(f, a, g, k);
    RoundsByComparison(f, b, i, k);
  }

  /** b is the float at or just below a * 10^g, and it is finite. */
  predicate JustBelow(f: Format, a: nat, g: int, b: nat)
    requires f.Bias() >= 0 && f.Hidden() > 0
  {
    && b < f.Infinity()
    && Compare(f, a, g, 2 * Units(f, b)) >= 0
    && Compare(f, a, g, 2 * Units(f, b + 1)) < 0
  }

  /** Between neighbouring floats the halfway point decides, and on it the even one. */
  lemma RoundsFromBelow(f: Format, a: nat, g: int, b: nat, up: bool)
    requires f.Bias() >= 0 && f.Hidden() > 0 && JustBelow(f, a, g, b)
    requires var c := Compare(f, a, g, Half(f, b)); up <==> c > 0 || (c == 0 && b % 2 == 1)
    ensures RoundsTo(f, a, g, if up then b + 1 else b)
  {
    hide Pow, Units, Compare;
    UnitsIncrease(f, b, b + 1);
    if up {
      UnitsIncrease(f, b + 1, b + 2);
      CompareMonotoneHalf(f, a, g, 2 * Units(f, b + 1), Half(f, b + 1));
      RoundsByComparison(f, a, g, b + 1);
    } else {
      if b > 0 {
        UnitsIncrease(f, b - 1, b);
        StrictlyAbove(f, a, g, Half(f, b - 1), 2 * Units(f, b));
      }
      RoundsByComparison(f, a, g, b);
    }
  }

  lemma StrictlyAbove(f: Format, a: nat, g: int, h: nat, j: nat)
    requires f.Bias() >= 0 && h < j && Compare(f, a, g, j) >= 0
    ensures Compare(f, a, g, h) > 0
  {
    TensPositive(g);
    MulLess(TenDown(g), h, j);
  }

  /** At or above the value that the pattern of infinity would have, the result is infinity. */
  lemma RoundsToInfinity(f: Format, a: nat, g: int)
    requires f.Bias() >= 0 && f.Hidden() > 0 && f.Infinity() > 0
    requires Compare(f, a, g, 2 * Units(f, f.Infinity())) >= 0
    ensures RoundsTo(f, a, g, f.Infinity())
  {
    UnitsIncrease(f, f.Infinity() - 1, f.Infinity());
    StrictlyAbove(f, a, g, Half(f, f.Infinity() - 1), 2 * Units(f, f.Infinity()));
    RoundsByComparison(f, a, g, f.Infinity());
  }

  // No halfway point has more significant digits than the format keeps.

  /** A halfway point is c * 2^p half units, c below 2^(mantissa bits + 2). */
  lemma HalfForm(f: Format, k: nat) returns (c: nat, p: nat)
    requires Sound(f) && f.Hidden() > 0 && k < f.Infinity()
    ensures Half(f, k) == c * Pow(2, p) && c < Pow(2, f.mantBits + 2) && p + 2 <= f.infPower
  {
    hide Pow;
    ExponentBelow(k, f.Hidden(), f.infPower);
    c, p := HalfFormAt(f, f.Hidden(), k / f.Hidden(), k % f.Hidden(), k);
  }

  lemma HalfFormAt(f: Format, h: nat, e: nat, m: nat, k: nat) returns (c: nat, p: nat)
    requires Sound(f) && h == f.Hidden() && m < h && k == e * h + m && e < f.infPower
    ensures Half(f, k) == c * Pow(2, p) && c < Pow(2, f.mantBits + 2) && p + 2 <= f.infPower
  {
    UnitsAt(f, e, m);
    UnitsNext(f, k);
    PowAdd(2, f.mantBits, 2);
    assert Pow(2, 2) == 4;
    if e == 0 {
      c, p := 2 * m + 1, 0;
    } else {
      c, p := 2 * (h + m) + 1, e - 1;
      TwiceAndOne(h + m, Pow(2, p));
    }
  }

  lemma ExponentBelow(k: nat, h: nat, i: nat)
    requires h > 0 && k < i * h
    ensures k / h < i
  {
    if k / h >= i { MulLessEq(h, i, k / h); }
  }

  lemma TwiceAndOne(m: nat, q: nat)
    ensures (2 * m + 1) * q == m * q + (m * q + q)
  {}

  /** Strictly between neighbouring multiples of w there is no multiple of w. */
  lemma NextMultiple(n: nat, w: nat, x: nat)
    requires n * w < x * w
    ensures (n + 1) * w <= x * w
  {
    MulCompare(w, n, x);
    MulLessEq(w, n + 1, x);
  }

  /** With all digits kept, no halfway point lies strictly inside the last decimal place. */
  lemma NoHalfInside(f: Format, n: nat, g: int, k: nat)
    requires Sound(f) && f.Hidden() > 0 && k < f.Infinity()
    requires n >= Pow(10, f.maxDigits - 1)
    requires Compare(f, n, g, Half(f, k)) < 0
    ensures Compare(f, n + 1, g, Half(f, k)) <= 0
  {
    var c, p := HalfForm(f, k);
    if g >= 1 {
      HalfBelowLarge(f, n, g, c, p);
    } else if p - g >= f.Bias() {
      HalfIsMultiple(f, n, -g, c, p);
    } else {
      HalfBelowSmall(f, n, -g, c, p);
    }
  }

  lemma HalfBelowLarge(f: Format, n: nat, g: int, c: nat, p: nat)
    requires Sound(f) && g >= 1 && n >= Pow(10, f.maxDigits - 1)
    requires c < Pow(2, f.mantBits + 2) && p + 2 <= f.infPower
    ensures c * Pow(2, p) <= n * Pow(2, f.Bias()) * TenUp(g)
  {
    HalfBelowTwos(f, c, p);
    TensBelow(f.maxDigits, n, g);
    ProductBelow(Pow(10, f.maxDigits), Pow(2, f.Bias()), n * Pow(10, g), Pow(2, f.Bias()));
    SwapFactors(n, Pow(10, g), Pow(2, f.Bias()));
  }

  lemma SwapFactors(a: nat, b: nat, c: nat)
    ensures a * b * c == a * c * b
  {}

  lemma HalfBelowTwos(f: Format, c: nat, p: nat)
    requires Sound(f) && c < Pow(2, f.mantBits + 2) && p + 2 <= f.infPower
    ensures c * Pow(2, p) <= Pow(10, f.maxDigits) * Pow(2, f.Bias())
  {
    TwosChain(f.mantBits, f.infPower, c, p, Pow(10, f.maxDigits) * Pow(2, f.Bias()));
  }

  lemma TwosChain(m: nat, i: nat, c: nat, p: nat, t: nat)
    requires c < Pow(2, m + 2) && p + 2 <= i && Pow(2, m + i) <= t
    ensures c * Pow(2, p) <= t
  {
    MulLessEq(Pow(2, p), c, Pow(2, m + 2));
    PowAdd(2, m + 2, p);
    PowMonotone(2, m + 2 + p, m + i);
  }

  lemma TensBelow(m: nat, n: nat, g: nat)
    requires m >= 1 && g >= 1 && n >= Pow(10, m - 1)
    ensures Pow(10, m) <= n * Pow(10, g)
  {
    PowMonotone(10, 1, g);
    assert Pow(10, 1) == 10;
    ProductBelow(Pow(10, m - 1), 10, n, Pow(10, g));
  }

  lemma HalfIsMultiple(f: Format, n: nat, m: nat, c: nat, p: nat)
    requires f.Bias() >= 0 && p + m >= f.Bias()
    requires n * Pow(2, f.Bias()) < c * Pow(2, p) * Pow(10, m)
    ensures (n + 1) * Pow(2, f.Bias()) <= c * Pow(2, p) * Pow(10, m)
  {
    MultipleForm(c, p, m, f.Bias());
    NextMultiple(n, Pow(2, f.Bias()), c * (Pow(2, p + m - f.Bias()) * Pow(5, m)));
  }

  lemma MultipleForm(c: nat, p: nat, m: nat, b: nat)
    requires p + m >= b
    ensures c * Pow(2, p) * Pow(10, m) == c * (Pow(2, p + m - b) * Pow(5, m)) * Pow(2, b)
  {
    PowMul(2, 5, m);
    PowAdd(2, p, m);
    PowAdd(2, p + m - b, b);
    Regroup(c, Pow(2, p), Pow(2, m), Pow(5, m), Pow(2, p + m - b), Pow(2, b));
  }

  lemma Regroup(c: nat, a: nat, b: nat, v: nat, q: nat, w: nat)
    requires a * b == q * w
    ensures c * a * (b * v) == c * (q * v) * w
  {
    assert c * a * (b * v) == c * v * (a * b);
    assert c * (q * v) * w == c * v * (q * w);
  }

  lemma HalfBelowSmall(f: Format, n: nat, m: nat, c: nat, p: nat)
    requires Sound(f) && p + m < f.Bias() && n >= Pow(10, f.maxDigits - 1)
    requires c < Pow(2, f.mantBits + 2)
    ensures c * Pow(2, p) * Pow(10, m) <= n * Pow(2, f.Bias())
  {
    HalfBelowFives(f, m, c, n);
    TwosBelow(p, m, f.Bias(), n, c, Pow(5, m));
  }

  /** c * 5^m <= 2 * 10^(maxDigits - 1) */
  lemma HalfBelowFives(f: Format, m: nat, c: nat, n: nat)
    requires Sound(f) && m < f.Bias() && n >= Pow(10, f.maxDigits - 1) && c < Pow(2, f.mantBits + 2)
    ensures c * Pow(5, m) <= 2 * n
  {
    PowMonotone(5, m, f.Bias() - 1);
    ProductBelow(c, Pow(5, m), Pow(2, f.mantBits + 2), Pow(5, f.Bias() - 1));
    FiveOut(Pow(2, f.mantBits + 2), Pow(5, f.Bias() - 1), Pow(10, f.maxDigits - 1));
  }

  lemma TwosBelow(p: nat, m: nat, b: nat, n: nat, c: nat, v: nat)
    requires p + m < b && v == Pow(5, m) && c * v <= 2 * n
    ensures c * Pow(2, p) * Pow(10, m) <= n * Pow(2, b)
  {
    PowMonotone(2, p + m, b - 1);
    PowAdd(2, p, m);
    PowMul(2, 5, m);
    assert Pow(2, b) == 2 * Pow(2, b - 1);
    hide Pow;
    Regrouped(c, Pow(2, p), Pow(2, m), v, n, Pow(2, b - 1), Pow(2, p + m), Pow(10, m), Pow(2, b));
  }

  lemma Regrouped(c: nat, t: nat, e: nat, v: nat, n: nat, h: nat, g: nat, f: nat, x: nat)
    requires g == t * e && f == e * v && x == 2 * h && g <= h && c * v <= 2 * n
    ensures c * t * f <= n * x
  {
    ProductBelow(c * v, g, 2 * n, h);
    FourFactors(c, t, e, v);
    FourFactors(n, 1, h, 2);
  }

  lemma FourFactors(c: nat, p: nat, q: nat, v: nat)
    ensures c * p * (q * v) == (c * v) * (p * q)
    ensures v * c * q == c * (v * q)
  {
    assert c * p * (q * v) == c * v * (p * q);
  }

  lemma FiveOut(a: nat, v: nat, t: nat)
    requires a * (5 * v) <= 10 * t
    ensures a * v <= 2 * t
  {
    assert a * (5 * v) == 5 * (a * v);
  }
}
