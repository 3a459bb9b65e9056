/**
 What binary64 and binary32 patterns stand for, in real numbers, and that rounding a decimal to
 a pattern means that no other is closer to it.
 */
module FloatValues {
  import opened Powers
  import opened FloatFormat
  import opened DecimalRounding

  /** 2^e */
  ghost function TwoTo(e: int): (r: real)
    ensures r > 0.0
  {
    if e >= 0 then
      PowPositive(2, e);
      Pow(2, e) as real
    else
      PowPositive(2, -e);
      1.0 / Pow(2, -e) as real
  }

  /** 10^g */
  ghost function TenTo(g: int): (r: real)
    ensures r > 0.0
  {
    if g >= 0 then
      PowPositive(10, g);
      Pow(10, g) as real
    else
      PowPositive(10, -g);
      1.0 / Pow(10, -g) as real
  }

  /** The value of a binary64 pattern; that of infinity is 2^1024, where overflow begins to be nearer. */
  ghost function Double(k: nat): real {
    var e, m := k / 0x10_0000_0000_0000, k % 0x10_0000_0000_0000;
    if e == 0 then m as real * TwoTo(-1074) else (0x10_0000_0000_0000 + m) as real * TwoTo(e - 1075)
  }

  /** The value of a binary32 pattern. */
  ghost function Single(k: nat): real {
    var e, m := k / 0x80_0000, k % 0x80_0000;
    if e == 0 then m as real * TwoTo(-149) else (0x80_0000 + m) as real * TwoTo(e - 150)
  }

  function Magnitude(x: real): real {
    if x < 0.0 then -x else x
  }

  // Powers.

  lemma Halved(p: nat)
    requires p > 0
    ensures 1.0 / p as real == 2.0 * (1.0 / (2 * p) as real)
  {
    assert (2 * p) as real == 2.0 * p as real;
  }

  lemma TwoToNext(e: int)
    ensures TwoTo(e + 1) == 2.0 * TwoTo(e)
  {
    if e >= 0 {
      assert Pow(2, e + 1) as real == 2.0 * Pow(2, e) as real;
    } else {
      assert Pow(2, -e) == 2 * Pow(2, -(e + 1));
      PowPositive(2, -(e + 1));
      Halved(Pow(2, -(e + 1)));
      assert e == -1 ==> Pow(2, 0) == 1;
    }
  }

  lemma {:induction false} TwoToAdd(n: nat, e: int)
    ensures TwoTo(n + e) == Pow(2, n) as real * TwoTo(e)
  {
    hide TwoTo;
    if n == 0 {
      assert Pow(2, 0) == 1;
    } else {
      assert Pow(2, n) == 2 * Pow(2, n - 1);
      hide Pow;
      TwoToAdd(n - 1, e);
      TwoToNext(n - 1 + e);
      Doubled(Pow(2, n - 1), Pow(2, n), TwoTo(e), TwoTo(n - 1 + e), TwoTo(n + e));
    }
  }

  lemma Doubled(p: nat, q: nat, t: real, u: real, v: real)
    requires q == 2 * p && u == p as real * t && v == 2.0 * u
    ensures v == q as real * t
  {
    assert q as real == 2.0 * p as real;
  }

  lemma TenToIs(g: int)
    ensures TenTo(g) * TenDown(g) as real == TenUp(g) as real
  {
    TensPositive(g);
    if g < 0 { Inverse(TenDown(g) as real); }
  }

  lemma Inverse(x: real)
    requires x > 0.0
    ensures 1.0 / x * x == 1.0
  {}

  // Values by a format's units, and closeness.

  ghost function Value(f: Format, k: nat): real
    requires f.Hidden() > 0
  {
    Units(f, k) as real * TwoTo(1 - f.Bias())
  }

  /** What a distance is counted in: 2^bias and the powers of ten below the decimal point. */
  ghost function Scale(f: Format, g: int): (r: real)
    requires f.Bias() >= 0
    ensures r > 0.0
  {
    PowPositive(2, f.Bias());
    TensPositive(g);
    Pow(2, f.Bias()) as real * TenDown(g) as real
  }

  /** The distance of a * 10^g from the value of pattern k, scaled to a whole number. */
  lemma DistanceIs(f: Format, a: nat, g: int, k: nat, x: real, s: real)
    requires f.Bias() >= 0 && f.Hidden() > 0 && x == a as real * TenTo(g) && s == Scale(f, g)
    ensures Distance(f, a * Pow(2, f.Bias()) * TenUp(g), TenDown(g), k) as real == Magnitude(x - Value(f, k)) * s
  {
    hide *;
    var p, u, d, n := Pow(2, f.Bias()), TenUp(g), TenDown(g), Units(f, k);
    var i: nat, j: nat := a * p * u, 2 * n * d;
    ScaleParts(f, g, k);
    ScaledDistance(a, p, u, d, n, TenTo(g), TwoTo(1 - f.Bias()), s, x, Value(f, k), i, j);
    DistanceAsReal(f, i, d, k, j);
  }

  lemma ScaledDistance(a: nat, p: nat, u: nat, d: nat, n: nat, t: real, w: real, s: real, x: real, v: real,
      i: nat, j: nat)
    requires t * d as real == u as real && p as real * w == 2.0 && s == p as real * d as real > 0.0
    requires x == a as real * t && v == n as real * w && i == a * p * u && j == 2 * n * d
    ensures Magnitude(x - v) * s == Magnitude(i as real - j as real)
    ensures i as real == x * s && j as real == v * s
  {
    ProductAsReal(a, p, u, i);
    ProductAsReal(2, n, d, j);
    FirstScaled(a as real, p as real, u as real, d as real, t, x, s);
    SecondScaled(n as real, p as real, d as real, w, v, s);
    MagnitudeTimes(x, v, s, i as real, j as real);
  }

  lemma ScaleParts(f: Format, g: int, k: nat)
    requires f.Bias() >= 0 && f.Hidden() > 0
    ensures TenTo(g) * TenDown(g) as real == TenUp(g) as real
    ensures Pow(2, f.Bias()) as real * TwoTo(1 - f.Bias()) == 2.0
    ensures Scale(f, g) == Pow(2, f.Bias()) as real * TenDown(g) as real
    ensures Value(f, k) == Units(f, k) as real * TwoTo(1 - f.Bias())
  {
    TenToIs(g);
    TwoToAdd(f.Bias(), 1 - f.Bias());
    TwoIs();
  }

  lemma DistanceAsReal(f: Format, x: nat, d: nat, k: nat, y: nat)
    requires f.Hidden() > 0 && y == 2 * Units(f, k) * d
    ensures Distance(f, x, d, k) as real == Magnitude(x as real - y as real)
  {}

  lemma ProductAsReal(a: nat, b: nat, c: nat, x: nat)
    requires x == a * b * c
    ensures x as real == a as real * b as real * c as real
  {
    assert (a * b) as real == a as real * b as real;
  }

  lemma TwoIs()
    ensures TwoTo(1) == 2.0
  {
    assert Pow(2, 1) == 2;
  }

  lemma FirstScaled(a: real, p: real, u: real, d: real, t: real, x: real, s: real)
    requires x == a * t && s == p * d && t * d == u
    ensures x * s == a * p * u
  {
    assert x * s == a * p * (t * d);
  }

  lemma SecondScaled(n: real, p: real, d: real, w: real, v: real, s: real)
    requires v == n * w && s == p * d && p * w == 2.0
    ensures v * s == 2.0 * n * d
  {
    assert v * s == (p * w) * n * d;
  }

  lemma MagnitudeTimes(x: real, y: real, s: real, u: real, v: real)
    requires s > 0.0 && u == x * s && v == y * s
    ensures Magnitude(x - y) * s == Magnitude(u - v)
  {
    DifferenceTimes(x, y, s, u, v);
    DifferenceTimes(y, x, s, v, u);
  }

  lemma DifferenceTimes(x: real, y: real, s: real, u: real, v: real)
    requires s > 0.0 && u == x * s && v == y * s
    ensures (x - y) * s == u - v && (x < y <==> u < v)
  {
    PositiveTimes(x - y, s);
  }

  lemma PositiveTimes(d: real, s: real)
    requires s > 0.0
    ensures d > 0.0 <==> d * s > 0.0
    ensures d < 0.0 <==> d * s < 0.0
  {}

  /** Of patterns j and k with values w and v, the number x rounds to k before j. */
  ghost predicate Wins(x: real, v: real, w: real, k: nat) {
    Magnitude(x - v) < Magnitude(x - w) || (Magnitude(x - v) == Magnitude(x - w) && k % 2 == 0)
  }

  lemma WinsByDistance(f: Format, a: nat, g: int, k: nat, j: nat, x: real)
    requires f.Bias() >= 0 && f.Hidden() > 0 && x == a as real * TenTo(g)
    ensures var n, d := a * Pow(2, f.Bias()) * TenUp(g), TenDown(g);
      Wins(x, Value(f, k), Value(f, j), k) <==>
      Distance(f, n, d, k) < Distance(f, n, d, j) || (Distance(f, n, d, k) == Distance(f, n, d, j) && k % 2 == 0)
  {
    hide Distance, Value, Scale, TenTo, TenUp, TenDown, Pow, Magnitude;
    var s := Scale(f, g);
    DistanceIs(f, a, g, k, x, s);
    DistanceIs(f, a, g, j, x, s);
    var n, d := a * Pow(2, f.Bias()) * TenUp(g), TenDown(g);
    CompareScaled(Magnitude(x - Value(f, k)), Magnitude(x - Value(f, j)), s,
                  Distance(f, n, d, k), Distance(f, n, d, j));
  }

  lemma CompareScaled(x: real, y: real, s: real, i: nat, j: nat)
    requires s > 0.0 && i as real == x * s && j as real == y * s
    ensures i < j <==> x < y
    ensures i == j <==> x == y
  {
    DifferenceTimes(x, y, s, i as real, j as real);
    DifferenceTimes(y, x, s, j as real, i as real);
  }

  /** Rounding to k means that of all other patterns none is closer, and none as close if k is odd. */
  lemma RoundsClosest(f: Format, a: nat, g: int, k: nat, x: real)
    requires f.Bias() >= 0 && f.Hidden() > 0 && x == a as real * TenTo(g)
    ensures RoundsTo(f, a, g, k) <==>
      k <= f.Infinity() && forall j: nat | j <= f.Infinity() && j != k :: Wins(x, Value(f, k), Value(f, j), k)
  {
    hide Units;
    TensPositive(g);
    var n, d := a * Pow(2, f.Bias()) * TenUp(g), TenDown(g);
    hide Distance, Value, TenTo, TenUp, TenDown, Pow, Wins, Nearest;
    forall j: nat | j <= f.Infinity() && j != k && RoundsTo(f, a, g, k) ensures Wins(x, Value(f, k), Value(f, j), k) {
      WinsByDistance(f, a, g, k, j, x);
      NearestIsClosest(f, n, d, k, j);
    }
    if k <= f.Infinity() && forall j: nat | j <= f.Infinity() && j != k :: Wins(x, Value(f, k), Value(f, j), k) {
      if k > 0 { WinsByDistance(f, a, g, k, k - 1, x); }
      if k < f.Infinity() { WinsByDistance(f, a, g, k, k + 1, x); }
      ClosestIsNearest(f, n, d, k);
    }
  }

  lemma ClosestIsNearest(f: Format, x: nat, d: nat, k: nat)
    requires f.Hidden() > 0 && d > 0 && k <= f.Infinity()
    requires k > 0 ==> Distance(f, x, d, k) <= Distance(f, x, d, k - 1)
    requires k > 0 && Distance(f, x, d, k) == Distance(f, x, d, k - 1) ==> k % 2 == 0
    requires k < f.Infinity() ==> Distance(f, x, d, k) <= Distance(f, x, d, k + 1)
    requires k < f.Infinity() && Distance(f, x, d, k) == Distance(f, x, d, k + 1) ==> k % 2 == 0
    ensures Nearest(f, x, d, k)
  {
    hide Units;
    if k > 0 {
      UnitsIncrease(f, k - 1, k);
      Between(Units(f, k - 1), Units(f, k), d, x);
    }
    if k < f.Infinity() {
      UnitsIncrease(f, k, k + 1);
      Between(Units(f, k), Units(f, k + 1), d, x);
    }
  }

  /** The midpoint of two numbers is where the distances are equal. */
  lemma Between(b: nat, c: nat, d: nat, x: nat)
    requires b < c && d > 0
    ensures var p, q := 2 * b * d, 2 * c * d;
      var i, j := if x <= p then p - x else x - p, if x <= q then q - x else x - q;
      (j <= i <==> (b + c) * d <= x) && (i <= j <==> x <= (b + c) * d)
  {
    Products(d, b, c);
    Products(d, b, b);
    Products(d, c, c);
    MulLess(d, b, c);
  }

  /** Comparing a decimal with a pattern's value, scaled to whole numbers. */
  lemma CompareIs(f: Format, a: nat, g: int, k: nat, x: real)
    requires f.Bias() >= 0 && f.Hidden() > 0 && x == a as real * TenTo(g)
    ensures Compare(f, a, g, 2 * Units(f, k)) >= 0 <==> Value(f, k) <= x
  {
    hide *;
    var p, u, d, n := Pow(2, f.Bias()), TenUp(g), TenDown(g), Units(f, k);
    var i: nat, j: nat, s := a * p * u, 2 * n * d, Scale(f, g);
    ScaleParts(f, g, k);
    ScaledDistance(a, p, u, d, n, TenTo(g), TwoTo(1 - f.Bias()), s, x, Value(f, k), i, j);
    CompareScaled(x, Value(f, k), s, i, j);
    SignOfDifference(f, a, g, 2 * n, i, j);
  }

  lemma SignOfDifference(f: Format, a: nat, g: int, h: nat, i: nat, j: nat)
    requires f.Bias() >= 0 && i == a * Pow(2, f.Bias()) * TenUp(g) && j == h * TenDown(g)
    ensures Compare(f, a, g, h) >= 0 <==> j <= i
  {}

  lemma JustBelowIs(f: Format, a: nat, g: int, b: nat, x: real)
    requires f.Bias() >= 0 && f.Hidden() > 0 && x == a as real * TenTo(g)
    ensures JustBelow(f, a, g, b) <==> b < f.Infinity() && Value(f, b) <= x < Value(f, b + 1)
  {
    hide Compare, Value, Units, TenTo, Pow;
    CompareIs(f, a, g, b, x);
    CompareIs(f, a, g, b + 1, x);
  }

  /** Larger patterns have larger values. */
  lemma ValuesIncrease(f: Format, j: nat, k: nat)
    requires f.Hidden() > 0 && j < k
    ensures Value(f, j) < Value(f, k)
  {
    hide Units, TwoTo, Pow;
    UnitsIncrease(f, j, k);
    TimesLess(Units(f, j) as real, Units(f, k) as real, TwoTo(1 - f.Bias()), Value(f, j), Value(f, k));
  }

  lemma TimesLess(x: real, y: real, t: real, u: real, v: real)
    requires x < y && t > 0.0 && u == x * t && v == y * t
    ensures u < v
  {
    DifferenceTimes(x, y, t, u, v);
  }

  // The two formats.

  lemma HiddenBits()
    ensures BINARY64.Hidden() == 0x10_0000_0000_0000 && BINARY64.Infinity() == 0x7FF0_0000_0000_0000
    ensures BINARY32.Hidden() == 0x80_0000 && BINARY32.Infinity() == 0x7F80_0000
  {
    assert Pow(2, 13) == 0x2000 && Pow(2, 10) == 0x400;
    PowAdd(2, 13, 10);
    PowAdd(2, 13, 13);
    PowAdd(2, 26, 26);
    assert Pow(2, 23) == 0x80_0000;
    assert Pow(2, 52) == 0x10_0000_0000_0000;
  }

  lemma UnitValue(full: nat, e: int, low: int, units: nat, v: real)
    requires e >= 1 && units == full * Pow(2, e - 1) && v == full as real * TwoTo(e - 1 + low)
    ensures units as real * TwoTo(low) == v
  {
    hide TwoTo, Pow;
    TwoToAdd(e - 1, low);
    Grouped(full, Pow(2, e - 1), TwoTo(low), units, TwoTo(e - 1 + low), v);
  }

  lemma Grouped(n: nat, p: nat, t: real, units: nat, u: real, v: real)
    requires units == n * p && u == p as real * t && v == n as real * u
    ensures units as real * t == v
  {
    TwoAsReal(n, p, units);
    assert n as real * p as real * t == n as real * (p as real * t);
  }

  lemma TwoAsReal(a: nat, b: nat, x: nat)
    requires x == a * b
    ensures x as real == a as real * b as real
  {}

  lemma DoubleIs(k: nat)
    ensures BINARY64.Hidden() > 0 && Double(k) == Value(BINARY64, k)
  {
    HiddenBits();
    hide Pow, TwoTo;
    var e, m := k / 0x10_0000_0000_0000, k % 0x10_0000_0000_0000;
    if e > 0 { UnitValue(0x10_0000_0000_0000 + m, e, -1074, Units(BINARY64, k), Double(k)); }
  }

  lemma SingleIs(k: nat)
    ensures BINARY32.Hidden() > 0 && Single(k) == Value(BINARY32, k)
  {
    HiddenBits();
    hide Pow, TwoTo;
    var e, m := k / 0x80_0000, k % 0x80_0000;
    if e > 0 { UnitValue(0x80_0000 + m, e, -149, Units(BINARY32, k), Single(k)); }
  }

  /** A decimal rounds to a binary64 pattern exactly if no other is closer, or as close if k is odd. */
  lemma RoundsToDouble(a: nat, g: int, k: nat)
    ensures BINARY64.Hidden() > 0
    ensures RoundsTo(BINARY64, a, g, k) <==>
      k <= 0x7FF0_0000_0000_0000 && forall j: nat | j <= 0x7FF0_0000_0000_0000 && j != k ::
        var x := a as real * TenTo(g);
        var u, v := Magnitude(x - Double(k)), Magnitude(x - Double(j));
        u < v || (u == v && k % 2 == 0)
  {
    HiddenBits();
    hide Pow, TwoTo, TenTo, Double, Value, RoundsTo;
    RoundsClosest(BINARY64, a, g, k, a as real * TenTo(g));
    DoubleIs(k);
    forall j: nat ensures Double(j) == Value(BINARY64, j) { DoubleIs(j); }
  }

  /** The same for binary32. */
  lemma RoundsToSingle(a: nat, g: int, k: nat)
    ensures BINARY32.Hidden() > 0
    ensures RoundsTo(BINARY32, a, g, k) <==>
      k <= 0x7F80_0000 && forall j: nat | j <= 0x7F80_0000 && j != k ::
        var x := a as real * TenTo(g);
        var u, v := Magnitude(x - Single(k)), Magnitude(x - Single(j));
        u < v || (u == v && k % 2 == 0)
  {
    HiddenBits();
    hide Pow, TwoTo, TenTo, Single, Value, RoundsTo;
    RoundsClosest(BINARY32, a, g, k, a as real * TenTo(g));
    SingleIs(k);
    forall j: nat ensures Single(j) == Value(BINARY32, j) { SingleIs(j); }
  }

  // Some patterns and their numbers.

  /** A decimal that is a pattern's value rounds to it. */
  lemma ExactDouble(a: nat, g: int, k: nat)
    requires k <= 0x7FF0_0000_0000_0000 && a as real * TenTo(g) == Double(k)
    ensures BINARY64.Hidden() > 0 && RoundsTo(BINARY64, a, g, k)
  {
    HiddenBits();
    hide Pow, TwoTo, TenTo, Double, Value, RoundsTo;
    DoubleIs(k);
    forall j: nat | j <= 0x7FF0_0000_0000_0000 && j != k ensures Double(j) != Double(k) {
      DoubleIs(j);
      if j < k { ValuesIncrease(BINARY64, j, k); } else { ValuesIncrease(BINARY64, k, j); }
    }
    RoundsToDouble(a, g, k);
  }

  lemma ExactSingle(a: nat, g: int, k: nat)
    requires k <= 0x7F80_0000 && a as real * TenTo(g) == Single(k)
    ensures BINARY32.Hidden() > 0 && RoundsTo(BINARY32, a, g, k)
  {
    HiddenBits();
    hide Pow, TwoTo, TenTo, Single, Value, RoundsTo;
    SingleIs(k);
    forall j: nat | j <= 0x7F80_0000 && j != k ensures Single(j) != Single(k) {
      SingleIs(j);
      if j < k { ValuesIncrease(BINARY32, j, k); } else { ValuesIncrease(BINARY32, k, j); }
    }
    RoundsToSingle(a, g, k);
  }

  lemma DoubleFields(e: nat, m: nat)
    requires m < 0x10_0000_0000_0000
    ensures Double(e * 0x10_0000_0000_0000 + m) ==
      if e == 0 then m as real * TwoTo(-1074) else (0x10_0000_0000_0000 + m) as real * TwoTo(e - 1075)
  {
    DivModIs(e * 0x10_0000_0000_0000 + m, 0x10_0000_0000_0000, e, m);
  }

  lemma SingleFields(e: nat, m: nat)
    requires m < 0x80_0000
    ensures Single(e * 0x80_0000 + m) ==
      if e == 0 then m as real * TwoTo(-149) else (0x80_0000 + m) as real * TwoTo(e - 150)
  {
    DivModIs(e * 0x80_0000 + m, 0x80_0000, e, m);
  }

  lemma TwoToIs(n: nat)
    ensures TwoTo(n) == Pow(2, n) as real && TenTo(0) == 1.0
  {
    assert Pow(10, 0) == 1;
  }

  lemma FivesAndTens(n: nat)
    ensures Pow(5, n) as real * TenTo(0 - n) == TwoTo(0 - n)
  {
    PowMul(2, 5, n);
    PowPositive(2, n);
    PowPositive(10, n);
    TwoAsReal(Pow(2, n), Pow(5, n), Pow(10, n));
    if n == 0 { assert Pow(10, 0) == 1 && Pow(5, 0) == 1 && Pow(2, 0) == 1; }
    hide Pow;
    Cancelled(Pow(2, n) as real, Pow(5, n) as real, Pow(10, n) as real);
  }

  lemma Cancelled(x: real, y: real, z: real)
    requires x > 0.0 && z > 0.0 && z == x * y
    ensures y * (1.0 / z) == 1.0 / x
  {
    assert y * (1.0 / z) * x == z * (1.0 / z);
    assert 1.0 / x * x == 1.0;
    assert (y * (1.0 / z) - 1.0 / x) * x == 0.0;
  }

  lemma WholeTimes(n: nat, p: nat, a: nat, t: real, u: real)
    requires a == n * p && u == p as real * t
    ensures a as real * t == n as real * u
  {
    TwoAsReal(n, p, a);
    assert n as real * p as real * t == n as real * (p as real * t);
  }

  /** Every finite binary64 pattern with exponent field e and fraction field m, by its decimal. */
  lemma EveryDouble(e: nat, m: nat)
    requires e < 2047 && m < 0x10_0000_0000_0000
    ensures var k := e * 0x10_0000_0000_0000 + m;
      && BINARY64.Hidden() > 0
      && (e == 0 ==> RoundsTo(BINARY64, m * Pow(5, 1074), -1074, k))
      && (0 < e < 1075 ==> RoundsTo(BINARY64, (0x10_0000_0000_0000 + m) * Pow(5, 1075 - e), e - 1075, k))
      && (1075 <= e ==> RoundsTo(BINARY64, (0x10_0000_0000_0000 + m) * Pow(2, e - 1075), 0, k))
  {
    hide Pow, TwoTo, TenTo, RoundsTo, Double;
    DoubleFields(e, m);
    var k, n := e * 0x10_0000_0000_0000 + m, 0x10_0000_0000_0000 + m;
    if e == 0 {
      FivesAndTens(1074);
      WholeTimes(m, Pow(5, 1074), m * Pow(5, 1074), TenTo(-1074), TwoTo(-1074));
      ExactDouble(m * Pow(5, 1074), -1074, k);
    } else if e < 1075 {
      FivesAndTens(1075 - e);
      WholeTimes(n, Pow(5, 1075 - e), n * Pow(5, 1075 - e), TenTo(e - 1075), TwoTo(e - 1075));
      ExactDouble(n * Pow(5, 1075 - e), e - 1075, k);
    } else {
      TwoToIs(e - 1075);
      WholeTimes(n, Pow(2, e - 1075), n * Pow(2, e - 1075), 1.0, TwoTo(e - 1075));
      ExactDouble(n * Pow(2, e - 1075), 0, k);
    }
    HiddenBits();
  }

  /** Every finite binary32 pattern likewise. */
  lemma EverySingle(e: nat, m: nat)
    requires e < 255 && m < 0x80_0000
    ensures var k := e * 0x80_0000 + m;
      && BINARY32.Hidden() > 0
      && (e == 0 ==> RoundsTo(BINARY32, m * Pow(5, 149), -149, k))
      && (0 < e < 150 ==> RoundsTo(BINARY32, (0x80_0000 + m) * Pow(5, 150 - e), e - 150, k))
      && (150 <= e ==> RoundsTo(BINARY32, (0x80_0000 + m) * Pow(2, e - 150), 0, k))
  {
    hide Pow, TwoTo, TenTo, RoundsTo, Single;
    SingleFields(e, m);
    var k, n := e * 0x80_0000 + m, 0x80_0000 + m;
    if e == 0 {
      FivesAndTens(149);
      WholeTimes(m, Pow(5, 149), m * Pow(5, 149), TenTo(-149), TwoTo(-149));
      ExactSingle(m * Pow(5, 149), -149, k);
    } else if e < 150 {
      FivesAndTens(150 - e);
      WholeTimes(n, Pow(5, 150 - e), n * Pow(5, 150 - e), TenTo(e - 150), TwoTo(e - 150));
      ExactSingle(n * Pow(5, 150 - e), e - 150, k);
    } else {
      TwoToIs(e - 150);
      WholeTimes(n, Pow(2, e - 150), n * Pow(2, e - 150), 1.0, TwoTo(e - 150));
      ExactSingle(n * Pow(2, e - 150), 0, k);
    }
    HiddenBits();
  }

  lemma InverseTwo(n: nat)
    ensures Pow(2, n) as real * TwoTo(0 - n) == 1.0
  {
    TwoToAdd(n, 0 - n);
    assert Pow(2, 0) == 1;
  }

  /** Halfway from the largest float to the value that infinity stands for. */
  lemma LastHalf(f: Format, h: nat)
    requires h == f.Hidden() > 0 && f.infPower >= 2
    ensures Half(f, f.Infinity() - 1) == (4 * h - 1) * Pow(2, f.infPower - 2)
  {
    var e, p := f.infPower, Pow(2, f.infPower - 2);
    assert Pow(2, e - 1) == 2 * p;
    assert f.Infinity() - 1 == (e - 1) * h + (h - 1);
    UnitsAt(f, e - 1, h - 1);
    UnitsAt(f, e, 0);
    hide Pow, Units;
    LastSum(h, p);
  }

  lemma LastSum(h: nat, p: nat)
    requires h > 0
    ensures (h + (h - 1)) * p + (h + 0) * (2 * p) == (4 * h - 1) * p
  {
    assert (2 * h - 1) * p + 2 * h * p == (4 * h - 1) * p;
  }

  /** On a tie there the result is infinity. */
  lemma OverflowTie(f: Format, h: nat, b: nat, p: nat)
    requires h == f.Hidden() > 0 && f.mantBits >= 1 && b == f.Bias() && p + b == f.infPower - 2
    ensures RoundsTo(f, NatTimes(4 * h - 1, Pow(2, p)), 0, f.Infinity())
  {
    LastHalf(f, h);
    PowAdd(2, p, b);
    assert Pow(10, 0) == 1;
    assert h == 2 * Pow(2, f.mantBits - 1);
    hide Pow, Units, Half;
    TieIs(4 * h - 1, Pow(2, p), Pow(2, b), Pow(2, p + b), NatTimes(4 * h - 1, Pow(2, p)));
    EvenTimes(f.infPower, Pow(2, f.mantBits - 1), h);
  }

  function NatTimes(a: nat, b: nat): nat {
    a * b
  }

  lemma TieIs(n: nat, p: nat, q: nat, r: nat, a: nat)
    requires r == p * q && a == n * p
    ensures a * q * 1 == n * r
  {
    MulAssoc(n, p, q);
  }

  lemma EvenTimes(n: nat, x: nat, h: nat)
    requires h == 2 * x
    ensures n * h % 2 == 0
  {
    assert n * h == 2 * (n * x);
  }

  /** One, the largest number, and where overflow begins: halfway from it to 2^1024, a tie. */
  lemma DoubleSamples()
    ensures BINARY64.Hidden() > 0
    ensures RoundsTo(BINARY64, 1, 0, 0x3FF0_0000_0000_0000)
    ensures RoundsTo(BINARY64, NatTimes(0x1F_FFFF_FFFF_FFFF, Pow(2, 971)), 0, 0x7FEF_FFFF_FFFF_FFFF)
    ensures RoundsTo(BINARY64, NatTimes(0x3F_FFFF_FFFF_FFFF, Pow(2, 970)), 0, 0x7FF0_0000_0000_0000)
  {
    hide Pow, RoundsTo;
    OneIsDouble();
    EveryDouble(2046, 0xF_FFFF_FFFF_FFFF);
    HiddenBits();
    OverflowTie(BINARY64, 0x10_0000_0000_0000, 1075, 970);
  }

  lemma OneIsDouble()
    ensures BINARY64.Hidden() > 0 && RoundsTo(BINARY64, 1, 0, 0x3FF0_0000_0000_0000)
  {
    HiddenBits();
    InverseTwo(52);
    assert Pow(2, 52) == 0x10_0000_0000_0000;
    TwoToIs(0);
    hide Pow, TwoTo, TenTo, RoundsTo, Double;
    DoubleFields(1023, 0);
    ExactDouble(1, 0, 0x3FF0_0000_0000_0000);
  }

  lemma OneIsSingle()
    ensures BINARY32.Hidden() > 0 && RoundsTo(BINARY32, 1, 0, 0x3F80_0000)
  {
    HiddenBits();
    InverseTwo(23);
    assert Pow(2, 23) == 0x80_0000;
    TwoToIs(0);
    hide Pow, TwoTo, TenTo, RoundsTo, Single;
    SingleFields(127, 0);
    ExactSingle(1, 0, 0x3F80_0000);
  }

  lemma SingleSamples()
    ensures BINARY32.Hidden() > 0
    ensures RoundsTo(BINARY32, 1, 0, 0x3F80_0000)
    ensures RoundsTo(BINARY32, NatTimes(0xFF_FFFF, Pow(2, 104)), 0, 0x7F7F_FFFF)
    ensures RoundsTo(BINARY32, NatTimes(0x1FF_FFFF, Pow(2, 103)), 0, 0x7F80_0000)
  {
    hide Pow, RoundsTo;
    OneIsSingle();
    EverySingle(254, 0x7F_FFFF);
    HiddenBits();
    OverflowTie(BINARY32, 0x80_0000, 150, 103);
  }
}
