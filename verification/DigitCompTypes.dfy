/** `digit_comp` for double and float: the result is the closest float, in real numbers. */
module DigitCompTypes {
  import opened Powers
  import opened Limbs
  import opened DecimalDigits
  import opened FloatFormat
  import opened DecimalRounding
  import opened FloatValues
  import opened MantissaDigits
  import opened SlowPathRoom
  import opened DigitComp
  import opened Options

  // The estimate in real numbers.

  /** The number that an extended mantissa and exponent stand for. */
  ghost function Estimate(f: Format, am: Adjusted): real {
    am.mantissa as real * TwoTo(am.power2 - f.Bias())
  }

  /** A normal estimate is between the pattern it rounds down to and the next. */
  lemma NormalBetween(f: Format, am: Adjusted, s: nat, e: int, q: nat)
    requires Sound(f) && f.Hidden() > 0 && s == 63 - f.mantBits && e == am.power2 + s >= 1
    requires Pow(2, s) > 0 && q == Quot(am.mantissa, s) && f.Hidden() <= q < 2 * f.Hidden()
    ensures var b := Pattern(f, e, q);
      Value(f, b) <= Estimate(f, am) < Value(f, b + 1)
  {
    hide Pow, TwoTo, Units, Sound, Pattern, Value;
    NormalUnits(f, e, q);
    var b := Pattern(f, e, q);
    HalfValue(f, b, q, e);
    HalfValue(f, b + 1, q + 1, e);
    TwoToAdd(s, am.power2 - f.Bias());
    QuotBounds(am.mantissa, Pow(2, s), q);
    Around(am.mantissa, Pow(2, s), q, TwoTo(am.power2 - f.Bias()), TwoTo(e - f.Bias()),
           Value(f, b), Estimate(f, am), Value(f, b + 1));
  }

  lemma QuotBounds(m: nat, p: nat, q: nat)
    requires p > 0 && q == m / p
    ensures q * p <= m < (q + 1) * p
  {}

  /** A pattern of n * 2^e half units. */
  lemma HalfValue(f: Format, k: nat, n: nat, e: nat)
    requires f.Hidden() > 0 && 2 * Units(f, k) == n * Pow(2, e)
    ensures Value(f, k) == n as real * TwoTo(e - f.Bias())
  {
    TwoToAdd(e, 0 - f.Bias());
    TwoToNext(0 - f.Bias());
    hide Pow, TwoTo, Units;
    HalfTimes(Units(f, k), n, Pow(2, e), TwoTo(0 - f.Bias()), TwoTo(1 - f.Bias()), TwoTo(e - f.Bias()));
  }

  lemma HalfTimes(u: nat, n: nat, p: nat, t: real, t2: real, w: real)
    requires 2 * u == n * p && t2 == 2.0 * t && w == p as real * t
    ensures u as real * t2 == n as real * w
  {
    TwoAsReal(n, p, 2 * u);
    assert u as real * t2 == (2 * u) as real * t;
    assert n as real * p as real * t == n as real * (p as real * t);
  }

  lemma Around(m: nat, p: nat, q: nat, t: real, w: real, low: real, x: real, high: real)
    requires q * p <= m < (q + 1) * p && w == p as real * t && t > 0.0
    requires low == q as real * w && x == m as real * t && high == (q + 1) as real * w
    ensures low <= x < high
  {
    Grouped(q, p, t, q * p, w, low);
    Grouped(q + 1, p, t, (q + 1) * p, w, high);
    RealTimes((q * p) as real, m as real, t);
    RealTimes(m as real, ((q + 1) * p) as real, t);
  }

  lemma RealTimes(x: real, y: real, t: real)
    requires t > 0.0
    ensures x <= y ==> x * t <= y * t
    ensures x < y ==> x * t < y * t
  {
    DifferenceTimes(x, y, t, x * t, y * t);
    DifferenceTimes(y, x, t, y * t, x * t);
  }

  lemma SubnormalValue(f: Format, q: nat)
    requires f.Hidden() > 0 && q < f.Hidden()
    ensures Value(f, q) == q as real * TwoTo(1 - f.Bias())
    ensures Value(f, q + 1) == (q + 1) as real * TwoTo(1 - f.Bias())
  {
    var h := f.Hidden();
    assert q == 0 * h + q;
    UnitsAt(f, 0, q);
    hide Pow, TwoTo, Units, Ulp;
    UnitsNext(f, q);
  }

  lemma TwoToIncreases(d: int, e: int)
    requires d <= e
    ensures TwoTo(d) <= TwoTo(e)
  {
    hide Pow, TwoTo;
    TwoToAdd(e - d, d);
    PowPositive(2, e - d);
    AtLeast(Pow(2, e - d), TwoTo(d), TwoTo(e));
  }

  lemma AtLeast(p: nat, t: real, u: real)
    requires p >= 1 && t > 0.0 && u == p as real * t
    ensures t <= u
  {
    RealTimes(1.0, p as real, t);
    assert 1.0 * t == t;
  }

  /** A subnormal estimate likewise, also where all its bits are shifted out. */
  lemma SubnormalBetween(f: Format, am: Adjusted, s: nat, q: nat)
    requires Sound(f) && f.Hidden() > 0 && 0 < am.mantissa < BASE
    requires s == if 1 - am.power2 < 64 then 1 - am.power2 else 64
    requires Pow(2, s) > 0 && q == Quot(am.mantissa, s) < f.Hidden()
    ensures Value(f, q) <= Estimate(f, am) < Value(f, q + 1)
  {
    hide Sound, Value, Pow, TwoTo;
    SubnormalValue(f, q);
    QuotBounds(am.mantissa, Pow(2, s), q);
    if s == 1 - am.power2 {
      TwoToAdd(s, am.power2 - f.Bias());
      Around(am.mantissa, Pow(2, s), q, TwoTo(am.power2 - f.Bias()), TwoTo(1 - f.Bias()),
             Value(f, q), Estimate(f, am), Value(f, q + 1));
    } else {
      ShiftAll(am.mantissa);
      AllShiftedOut(am.mantissa, am.power2 - f.Bias(), 1 - f.Bias(), Estimate(f, am));
    }
  }

  lemma AllShiftedOut(m: nat, d: int, e: int, x: real)
    requires m < BASE && d + 64 <= e && x == m as real * TwoTo(d)
    ensures 0.0 <= x < TwoTo(e)
  {
    hide Pow, TwoTo;
    BaseIsTwoTo64();
    TwoToAdd(64, d);
    TwoToIncreases(64 + d, e);
    Below(m, BASE, TwoTo(d), x, TwoTo(64 + d));
  }

  lemma Below(m: nat, n: nat, t: real, x: real, y: real)
    requires m < n && t > 0.0 && x == m as real * t && y == n as real * t
    ensures 0.0 <= x < y
  {
    DifferenceTimes(m as real, n as real, t, x, y);
    DifferenceTimes(m as real, 0.0, t, x, 0.0);
  }

  /** The estimate is between the pattern it rounds down to and the next. */
  lemma EstimateBetween(f: Format, am: Adjusted)
    requires Sound(f) && f.Hidden() > 0 && TOP_BIT <= am.mantissa < BASE
    ensures 0 <= Shift(f, am.power2) && Pow(2, Shift(f, am.power2)) > 0
    ensures var b := DownPattern(f, am); Value(f, b) <= Estimate(f, am) < Value(f, b + 1)
  {
    var s := Shift(f, am.power2);
    QuotientRange(f, am.mantissa, s);
    var q := Quot(am.mantissa, s);
    hide Value, Quot, Pow;
    if -am.power2 < 63 - f.mantBits {
      NormalBetween(f, am, s, am.power2 + s, q);
    } else {
      SubnormalBetween(f, am, s, q);
    }
  }

  /** So if the estimate and the number lie between the same two neighbours, it is what is promised. */
  lemma EstimateAgrees(f: Format, am: Adjusted, a: nat, g: int, b: nat, x: real)
    requires Sound(f) && f.Hidden() > 0 && TOP_BIT <= am.mantissa < BASE && x == a as real * TenTo(g)
    requires b < f.Infinity() && Value(f, b) <= x < Value(f, b + 1)
    requires Value(f, b) <= Estimate(f, am) < Value(f, b + 1)
    ensures EstimateBelow(f, am, a, g)
  {
    hide Value, Estimate, DownPattern, JustBelow, Shift;
    EstimateBetween(f, am);
    var c := DownPattern(f, am);
    if c < b { ValueOrder(f, c + 1, b); }
    if b < c { ValueOrder(f, b + 1, c); }
    JustBelowIs(f, a, g, b, x);
  }

  lemma ValueOrder(f: Format, j: nat, k: nat)
    requires f.Hidden() > 0 && j <= k
    ensures Value(f, j) <= Value(f, k)
  {
    if j < k { ValuesIncrease(f, j, k); }
  }

  // The two instances.

  /** The significant digits are those from the first that is not zero on. */
  lemma LeadingPlace(ds: seq<Digit>, z: nat)
    requires z < |ds| && ds[z] != 0 && forall i | 0 <= i < z :: ds[i] == 0
    ensures Significant(ds) == ds[z..] && Number(Significant(ds)) == Number(ds)
  {
    SignificantNumber(ds);
    SignificantDrop(ds, z);
  }

  /** When the digits kept reach below the decimal point, n of them being before it. */
  lemma ReachesBelow(ds: seq<Digit>, z: nat, max: nat, n: int)
    requires z <= |ds|
    ensures n < KeptCount(ds[z..], max) <==>
      n < |ds| - z && (n < max || (n == max && exists i :: z + max <= i < |ds| && ds[i] != 0))
  {
    var s := ds[z..];
    if |s| > max {
      if AllZero(s[max..]) {
        forall i | z + max <= i < |ds| ensures ds[i] == 0 { assert ds[i] == s[max..][i - z - max]; }
      } else {
        var i :| 0 <= i < |s[max..]| && s[max..][i] != 0;
        assert ds[z + max + i] == s[max..][i];
      }
    }
  }

  lemma PromisedDouble(am: Adjusted, a: nat, g: int, b: nat)
    requires TOP_BIT <= am.mantissa < BASE && b < 0x7FF0_0000_0000_0000
    requires Double(b) <= a as real * TenTo(g) < Double(b + 1)
    requires Double(b) <= am.mantissa as real * TwoTo(am.power2 - 1075) < Double(b + 1)
    ensures BINARY64.Hidden() > 0 && EstimateBelow(BINARY64, am, a, g)
  {
    Binary64IsSound();
    HiddenBits();
    hide Pow, TwoTo, TenTo, Double, Value, EstimateBelow, Sound;
    DoubleIs(b);
    DoubleIs(b + 1);
    EstimateAgrees(BINARY64, am, a, g, b, a as real * TenTo(g));
  }

  method DoublePattern(am: Adjusted, integer: seq<Digit>, fraction: Option<seq<Digit>>, sciExp: int,
      ghost ds: seq<Digit>, ghost g: int) returns (answer: Adjusted)
    requires Roomy(BINARY64) && InRange(BINARY64, sciExp) && ds == Digits(integer, fraction)
    requires var s := Significant(ds);
      && s != [] && g == sciExp + 1 - |s| && Number(s) == Number(ds)
      && (sciExp + 1 < KeptCount(s, 769) ==> BINARY64.Hidden() > 0 && EstimateBelow(BINARY64, am, Number(s), g))
    ensures answer.power2 >= 0
    ensures var k := ToFloat(BINARY64, answer);
      && (answer.mantissa < 0x10_0000_0000_0000 ==> k == answer.power2 * 0x10_0000_0000_0000 + answer.mantissa)
      && k <= 0x7FF0_0000_0000_0000
      && forall j: nat | j <= 0x7FF0_0000_0000_0000 && j != k ::
        var x := Number(ds) as real * TenTo(g);
        var u, v := Magnitude(x - Double(k)), Magnitude(x - Double(j));
        u < v || (u == v && k % 2 == 0)
  {
    hide ToFloat, Digits;
    HiddenBits();
    Binary64IsSound();
    hide Pow, TwoTo, TenTo, Double, Number, Significant, EstimateBelow, RoundsTo, Sound, Roomy, InRange, KeptCount,
      Magnitude;
    answer := DigitComp.DigitComp(BINARY64, am, integer, fraction, sciExp);
    RoundsToDouble(Number(ds), g, ToFloat(BINARY64, answer));
    if answer.mantissa < 0x10_0000_0000_0000 { FieldsPattern(BINARY64, answer.power2, answer.mantissa); }
  }

  /**
   `digit_comp<double>`: no other pattern is closer to the number written, and if one is as close,
   the result is the even one. The digits are those of both spans, the leading significant one at
   place z and worth 10^sciExp, which is in range at least from -400 to 900. Where the digits kept
   reach below the decimal point, the estimate has to lie between the same two neighbours, of
   patterns b and b + 1, as the number.
   */
  method DigitCompDouble(am: Adjusted, integer: seq<Digit>, fraction: Option<seq<Digit>>, sciExp: int,
      ghost ds: seq<Digit>, ghost z: nat, ghost b: nat) returns (answer: Adjusted)
    requires InRange(BINARY64, sciExp) && ds == integer + (if fraction.Some? then fraction.value else [])
    requires z < |ds| && ds[z] != 0 && forall i | 0 <= i < z :: ds[i] == 0
    requires
      sciExp + 1 < |ds| - z &&
      (sciExp + 1 < 769 || (sciExp + 1 == 769 && exists i :: z + 769 <= i < |ds| && ds[i] != 0)) ==>
        var x: real, v: real :=
          Number(ds) as real * TenTo(sciExp + 1 - (|ds| - z)), am.mantissa as real * TwoTo(am.power2 - 1075);
        && TOP_BIT <= am.mantissa < BASE && b < 0x7FF0_0000_0000_0000
        && Double(b) <= x < Double(b + 1) && Double(b) <= v < Double(b + 1)
    ensures answer.power2 >= 0
    ensures var k := ToFloat(BINARY64, answer);
      && (answer.mantissa < 0x10_0000_0000_0000 ==> k == answer.power2 * 0x10_0000_0000_0000 + answer.mantissa)
      && k <= 0x7FF0_0000_0000_0000
      && forall j: nat | j <= 0x7FF0_0000_0000_0000 && j != k ::
        var x := Number(ds) as real * TenTo(sciExp + 1 - (|ds| - z));
        var u, v := Magnitude(x - Double(k)), Magnitude(x - Double(j));
        u < v || (u == v && k % 2 == 0)
  {
    hide Pow, TwoTo, TenTo, Double, Number, Significant, EstimateBelow, Roomy, InRange, KeptCount, Magnitude, ToFloat;
    LeadingPlace(ds, z);
    Binary64HasRoom(0);
    ReachesBelow(ds, z, 769, sciExp + 1);
    assert Digits(integer, fraction) == ds;
    ghost var g := sciExp + 1 - (|ds| - z);
    if sciExp + 1 < KeptCount(Significant(ds), 769) { PromisedDouble(am, Number(ds), g, b); }
    answer := DoublePattern(am, integer, fraction, sciExp, ds, g);
  }

  lemma PromisedSingle(am: Adjusted, a: nat, g: int, b: nat)
    requires TOP_BIT <= am.mantissa < BASE && b < 0x7F80_0000
    requires Single(b) <= a as real * TenTo(g) < Single(b + 1)
    requires Single(b) <= am.mantissa as real * TwoTo(am.power2 - 150) < Single(b + 1)
    ensures BINARY32.Hidden() > 0 && EstimateBelow(BINARY32, am, a, g)
  {
    Binary32IsSound();
    HiddenBits();
    hide Pow, TwoTo, TenTo, Single, Value, EstimateBelow, Sound;
    SingleIs(b);
    SingleIs(b + 1);
    EstimateAgrees(BINARY32, am, a, g, b, a as real * TenTo(g));
  }

  method SinglePattern(am: Adjusted, integer: seq<Digit>, fraction: Option<seq<Digit>>, sciExp: int,
      ghost ds: seq<Digit>, ghost g: int) returns (answer: Adjusted)
    requires Roomy(BINARY32) && InRange(BINARY32, sciExp) && ds == Digits(integer, fraction)
    requires var s := Significant(ds);
      && s != [] && g == sciExp + 1 - |s| && Number(s) == Number(ds)
      && (sciExp + 1 < KeptCount(s, 114) ==> BINARY32.Hidden() > 0 && EstimateBelow(BINARY32, am, Number(s), g))
    ensures answer.power2 >= 0
    ensures var k := ToFloat(BINARY32, answer);
      && (answer.mantissa < 0x80_0000 ==> k == answer.power2 * 0x80_0000 + answer.mantissa)
      && k <= 0x7F80_0000
      && forall j: nat | j <= 0x7F80_0000 && j != k ::
        var x := Number(ds) as real * TenTo(g);
        var u, v := Magnitude(x - Single(k)), Magnitude(x - Single(j));
        u < v || (u == v && k % 2 == 0)
  {
    hide ToFloat, Digits;
    HiddenBits();
    Binary32IsSound();
    hide Pow, TwoTo, TenTo, Single, Number, Significant, EstimateBelow, RoundsTo, Sound, Roomy, InRange, KeptCount,
      Magnitude;
    answer := DigitComp.DigitComp(BINARY32, am, integer, fraction, sciExp);
    RoundsToSingle(Number(ds), g, ToFloat(BINARY32, answer));
    if answer.mantissa < 0x80_0000 { FieldsPattern(BINARY32, answer.power2, answer.mantissa); }
  }

  /**
   `digit_comp<float>`: no other pattern is closer to the number written, and if one is as close,
   the result is the even one. The digits are those of both spans, the leading significant one at
   place z and worth 10^sciExp, which is in range at least from -400 to 900. Where the digits kept
   reach below the decimal point, the estimate has to lie between the same two neighbours, of
   patterns b and b + 1, as the number.
   */
  method DigitCompFloat(am: Adjusted, integer: seq<Digit>, fraction: Option<seq<Digit>>, sciExp: int,
      ghost ds: seq<Digit>, ghost z: nat, ghost b: nat) returns (answer: Adjusted)
    requires InRange(BINARY32, sciExp) && ds == integer + (if fraction.Some? then fraction.value else [])
    requires z < |ds| && ds[z] != 0 && forall i | 0 <= i < z :: ds[i] == 0
    requires
      sciExp + 1 < |ds| - z &&
      (sciExp + 1 < 114 || (sciExp + 1 == 114 && exists i :: z + 114 <= i < |ds| && ds[i] != 0)) ==>
        var x: real, v: real :=
          Number(ds) as real * TenTo(sciExp + 1 - (|ds| - z)), am.mantissa as real * TwoTo(am.power2 - 150);
        && TOP_BIT <= am.mantissa < BASE && b < 0x7F80_0000
        && Single(b) <= x < Single(b + 1) && Single(b) <= v < Single(b + 1)
    ensures answer.power2 >= 0
    ensures var k := ToFloat(BINARY32, answer);
      && (answer.mantissa < 0x80_0000 ==> k == answer.power2 * 0x80_0000 + answer.mantissa)
      && k <= 0x7F80_0000
      && forall j: nat | j <= 0x7F80_0000 && j != k ::
        var x := Number(ds) as real * TenTo(sciExp + 1 - (|ds| - z));
        var u, v := Magnitude(x - Single(k)), Magnitude(x - Single(j));
        u < v || (u == v && k % 2 == 0)
  {
    hide Pow, TwoTo, TenTo, Single, Number, Significant, EstimateBelow, Roomy, InRange, KeptCount, Magnitude, ToFloat;
    LeadingPlace(ds, z);
    Binary32HasRoom(0);
    ReachesBelow(ds, z, 114, sciExp + 1);
    assert Digits(integer, fraction) == ds;
    ghost var g := sciExp + 1 - (|ds| - z);
    if sciExp + 1 < KeptCount(Significant(ds), 114) { PromisedSingle(am, Number(ds), g, b); }
    answer := SinglePattern(am, integer, fraction, sciExp, ds, g);
  }
}
