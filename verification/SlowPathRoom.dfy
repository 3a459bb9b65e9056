/**
 Why the fixed storage of the slow path's big integers is large enough: what every number it
 computes needs, for which formats and exponents.
 */
module SlowPathRoom {
  import opened Powers
  import opened Limbs
  import opened BigInts
  import opened FloatFormat
  import opened DecimalRounding
  import opened DecimalCapacity

  /** The number fits the storage, with the five limbs to spare that the largest factor may add. */
  predicate Fits(v: nat) {
    Length(v) + |LARGE_POWER_OF_5| <= MAX_LIMBS
  }

  lemma FitsBelow(v: nat, w: nat)
    requires v <= w && Fits(w)
    ensures Fits(v)
  {
    LengthMonotone(v, w);
  }

  /** There is room for the most digits kept, scaled up as far as the format's halfway points need. */
  predicate Roomy(f: Format)
    requires f.Bias() >= 0
  {
    Fits(3 * (Pow(10, f.maxDigits + 1) * Pow(2, f.Bias())))
  }

  /** Five to the k, and the twos that are left of ten to the k when 2^bias is taken off. */
  function Tiny(k: nat, bias: nat): nat
    requires bias <= k
  {
    Pow(5, k) * Pow(2, k - bias)
  }

  /** There is room at this exponent of the leading digit, for large numbers and for those that round to zero. */
  predicate InRange(f: Format, sciExp: int)
    requires f.Bias() >= 0
  {
    && Fits(TenUp(sciExp + 1))
    && (f.maxDigits - sciExp >= f.Bias() ==> Fits(Tiny(f.maxDigits - sciExp, f.Bias())))
  }

  /** The halfway point's side of the comparison: t * 5^k * 2^x. */
  function ScaledUp(t: nat, k: nat, x: nat): nat {
    t * Pow(5, k) * Pow(2, x)
  }

  /** What the comparison of a * 10^-k with t * 2^e computes fits. */
  predicate ScaledFits(a: nat, k: nat, t: nat, e: int) {
    && Fits(t * Pow(5, k))
    && (e + k > 0 ==> Fits(ScaledUp(t, k, e + k)))
    && (e + k < 0 ==> Fits(a * Pow(2, -(e + k))))
  }

  // The digits.

  lemma DigitsFit(f: Format, v: nat)
    requires f.Bias() >= 0 && Roomy(f) && v <= Pow(10, f.maxDigits + 1)
    ensures Fits(v)
  {
    PowPositive(2, f.Bias());
    MulGrows(Pow(10, f.maxDigits + 1), Pow(2, f.Bias()));
    FitsBelow(v, 3 * (Pow(10, f.maxDigits + 1) * Pow(2, f.Bias())));
  }

  /** A number of the digits given, scaled by a power of ten. */
  lemma LargeFits(a: nat, digits: nat, exponent: nat, n: nat)
    requires Fits(Pow(10, n)) && a < Pow(10, digits) && digits + exponent == n
    ensures Fits(a * Pow(10, exponent))
  {
    PowAdd(10, digits, exponent);
    PartFits(a, Pow(10, digits), Pow(10, exponent), Pow(10, n));
  }

  lemma PartFits(a: nat, p: nat, q: nat, r: nat)
    requires a <= p && r == p * q && Fits(r)
    ensures Fits(a * q)
  {
    MulLessEq(q, a, p);
    FitsBelow(a * q, r);
  }

  // The halfway point.

  lemma UlpIsLess(f: Format, b: nat)
    requires f.Hidden() > 0 && b > 0
    ensures Ulp(f, b) <= Units(f, b)
  {
    var e, m := b / f.Hidden(), b % f.Hidden();
    if e > 0 { MulLessEq(Pow(2, e - 1), 1, f.Hidden() + m); }
  }

  /** The next halfway point is three times as large at most. */
  lemma HalfTriple(f: Format, b: nat)
    requires f.Hidden() > 0 && b > 0
    ensures Half(f, b) <= 3 * Half(f, b - 1)
  {
    UlpIsLess(f, b);
    UnitsNext(f, b);
  }

  /** Scaled down: the halfway point times 5^k fits where no twos are left to multiply by. */
  lemma FivesFitStorage(f: Format, k: nat, t: nat, e: int)
    requires Sound(f) && Roomy(f) && t < Pow(2, f.mantBits + 2) && e + f.Bias() >= 0 && e + k <= 0
    ensures Fits(t * Pow(5, k))
  {
    PowMonotone(5, k, f.Bias());
    PowMonotone(10, f.maxDigits, f.maxDigits + 1);
    DigitsFit(f, Pow(10, f.maxDigits));
    SmallerFits(t, Pow(5, k), Pow(2, f.mantBits + 2), Pow(5, f.Bias()), Pow(10, f.maxDigits));
  }

  lemma SmallerFits(t: nat, u: nat, a: nat, b: nat, m: nat)
    requires t <= a && u <= b && a * b <= m && Fits(m)
    ensures Fits(t * u)
  {
    ProductBelow(t, u, a, b);
    var v := NatProduct(1, t, u);
    FitsBelow(v, m);
  }

  lemma DigitsScaledFit(f: Format, a: nat, q: nat)
    requires f.Bias() >= 0 && Roomy(f) && a <= Pow(10, f.maxDigits + 1) && q <= f.Bias()
    ensures Fits(a * Pow(2, q))
  {
    PowMonotone(2, q, f.Bias());
    TripleOf(Pow(10, f.maxDigits + 1), Pow(2, f.Bias()));
    SmallerFits(a, Pow(2, q), Pow(10, f.maxDigits + 1), Pow(2, f.Bias()),
                3 * (Pow(10, f.maxDigits + 1) * Pow(2, f.Bias())));
  }

  lemma TripleOf(x: nat, y: nat)
    ensures x * y <= 3 * (x * y)
  {}

  /** t * 5^k * 2^p is the halfway point times 10^k, in units of 2^-bias. */
  lemma ScaledHalf(t: nat, k: nat, p: nat, x: nat, b: nat)
    requires p + b == x + k
    ensures t * Pow(5, k) * Pow(2, p) * Pow(2, b) == t * Pow(2, x) * Pow(10, k)
  {
    hide Val, Place, Pow;
    PowMul(2, 5, k);
    PowAdd(2, p, b);
    PowAdd(2, x, k);
    MulAssoc(t * Pow(5, k), Pow(2, p), Pow(2, b));
    FourFactors(t, Pow(2, x), Pow(2, k), Pow(5, k));
  }

  /** Above the least halfway point, it takes no more than three times the digits. */
  lemma NormalHalfFits(a: nat, m: nat, k: nat, t: nat, x: nat, p: nat, bias: nat, before: nat)
    requires a <= m && Fits(3 * (m * Pow(2, bias))) && p + bias == x + k
    requires before * Pow(10, k) <= a * Pow(2, bias) && t * Pow(2, x) <= 3 * before
    ensures Fits(ScaledUp(t, k, p))
  {
    var v := NatProduct(t, Pow(5, k), Pow(2, p));
    var h := NatProduct(1, t, Pow(2, x));
    PowPositive(2, bias);
    ScaledHalf(t, k, p, x, bias);
    TripleFits(v, h, Pow(10, k), Pow(2, bias), a, m, before);
  }

  lemma NatProduct(a: nat, b: nat, c: nat) returns (v: nat)
    ensures v == a * b * c
  {
    v := a * b * c;
  }

  lemma TripleFits(v: nat, h: nat, u: nat, w: nat, a: nat, m: nat, before: nat)
    requires v * w == h * u && h <= 3 * before && before * u <= a * w && a <= m && w > 0 && Fits(3 * (m * w))
    ensures Fits(v)
  {
    MulLessEq(u, h, 3 * before);
    AtMostTriple(v, a, w, before, u);
    MulGrows(m, w);
    FitsBelow(v, 3 * (m * w));
  }

  lemma AtMostTriple(x: nat, a: nat, w: nat, h: nat, u: nat)
    requires w > 0 && x * w <= 3 * h * u && h * u <= a * w
    ensures x <= 3 * a
  {
    assert 3 * h * u == 3 * (h * u) && 3 * (a * w) == (3 * a) * w;
    if x > 3 * a { MulLessEq(w, 3 * a + 1, x); }
  }

  /** The least halfway point, 2^-bias. */
  lemma LeastHalfFits(k: nat, n: nat, bias: nat)
    requires bias <= k <= n && Fits(Tiny(n, bias))
    ensures Fits(Pow(5, k) * Pow(2, k - bias))
  {
    PowMonotone(5, k, n);
    PowMonotone(2, k - bias, n - bias);
    ProductBelow(Pow(5, k), Pow(2, k - bias), Pow(5, n), Pow(2, n - bias));
    FitsBelow(Pow(5, k) * Pow(2, k - bias), Tiny(n, bias));
  }

  /** What a * 10^-k at or above h half units means for the integers. */
  lemma AtLeast(f: Format, a: nat, k: int, h: nat)
    requires f.Bias() >= 0 && k > 0 && Compare(f, a, -k, h) >= 0
    ensures h * Pow(10, k) <= a * Pow(2, f.Bias())
  {}

  lemma UpperFits(f: Format, a: nat, k: int, b: nat, t: nat, e: int, sciExp: int)
    requires Sound(f) && f.Hidden() > 0 && Roomy(f) && InRange(f, sciExp)
    requires a <= Pow(10, f.maxDigits + 1) && 0 < k <= f.maxDigits - sciExp && e + k > 0
    requires b > 0 ==> Compare(f, a, -k, Half(f, b - 1)) >= 0
    requires e + f.Bias() >= 0 && Half(f, b) == t * Pow(2, e + f.Bias())
    requires b == 0 ==> t == 1 && e == -f.Bias()
    ensures Fits(ScaledUp(t, k, e + k))
  {
    if b > 0 {
      AtLeast(f, a, k, Half(f, b - 1));
      HalfTriple(f, b);
      NormalHalfFits(a, Pow(10, f.maxDigits + 1), k, t, e + f.Bias(), e + k, f.Bias(), Half(f, b - 1));
    } else {
      LeastHalfFits(k, f.maxDigits - sciExp, f.Bias());
    }
  }

  lemma FewerFits(t: nat, u: nat, p: nat)
    requires p > 0 && Fits(t * u * p)
    ensures Fits(t * u)
  {
    var x := NatProduct(1, t, u);
    MulGrows(x, p);
    FitsBelow(x, x * p);
  }

  lemma LowerFits(f: Format, a: nat, k: nat, t: nat, e: int)
    requires Sound(f) && Roomy(f) && a <= Pow(10, f.maxDigits + 1)
    requires t < Pow(2, f.mantBits + 2) && e + f.Bias() >= 0 && e + k <= 0
    ensures ScaledFits(a, k, t, e)
  {
    FivesFitStorage(f, k, t, e);
    if e + k < 0 { DigitsScaledFit(f, a, -(e + k)); }
  }

  /** Everything that the comparison with the point halfway above b computes fits the storage. */
  lemma ComparisonFits(f: Format, a: nat, k: int, b: nat, t: nat, e: int, sciExp: int)
    requires Sound(f) && f.Hidden() > 0 && Roomy(f) && InRange(f, sciExp)
    requires a <= Pow(10, f.maxDigits + 1) && 0 < k <= f.maxDigits - sciExp
    requires b > 0 ==> Compare(f, a, -k, Half(f, b - 1)) >= 0
    requires t < Pow(2, f.mantBits + 2) && e + f.Bias() >= 0 && Half(f, b) == t * Pow(2, e + f.Bias())
    requires b == 0 ==> t == 1 && e == -f.Bias()
    ensures ScaledFits(a, k, t, e)
  {
    if e + k > 0 {
      UpperFits(f, a, k, b, t, e, sciExp);
      PowPositive(2, e + k);
      FewerFits(t, Pow(5, k), Pow(2, e + k));
    } else {
      LowerFits(f, a, k, t, e);
    }
  }

  // The two formats.

  lemma FitsBits(v: nat, bits: nat, n: nat)
    requires v <= Pow(2, bits) && bits < 64 * n && n + |LARGE_POWER_OF_5| <= MAX_LIMBS
    ensures Fits(v)
  {
    BaseIsTwoTo64();
    PowPow(2, 64, n);
    PowStrict(2, bits, 64 * n);
    LengthBelow(v, n);
  }

  lemma RoomyIf(f: Format, n: nat)
    requires f.Bias() >= 0 && f.maxDigits >= 58 && n + |LARGE_POWER_OF_5| <= MAX_LIMBS
    requires 10 * (f.maxDigits + 1) / 3 + f.Bias() + 2 < 64 * n
    ensures Roomy(f)
  {
    var bits := 10 * (f.maxDigits + 1) / 3;
    TenThirds(f.maxDigits + 1);
    PowAdd(2, bits, f.Bias());
    assert Pow(2, 2 + (bits + f.Bias())) == 4 * Pow(2, bits + f.Bias());
    hide Pow;
    Tripled(Pow(10, f.maxDigits + 1), Pow(2, f.Bias()), Pow(2, bits), Pow(2, bits + f.Bias()));
    FitsBits(3 * (Pow(10, f.maxDigits + 1) * Pow(2, f.Bias())), 2 + (bits + f.Bias()), n);
  }

  lemma Tripled(t: nat, b: nat, p: nat, q: nat)
    requires t <= p && q == p * b
    ensures 3 * (t * b) <= 4 * q
  {
    ProductBelow(t, b, p, b);
  }

  lemma TensInBits(e: nat)
    ensures Pow(10, e) <= Pow(2, 4 * e) && Pow(5, e) <= Pow(2, 3 * e)
  {
    PowPow(2, 4, e);
    PowPow(2, 3, e);
    assert Pow(2, 4) == 16 && Pow(2, 3) == 8;
    PowBaseMonotone(10, 16, e);
    PowBaseMonotone(5, 8, e);
  }

  lemma InRangeIf(f: Format, sciExp: int, n: nat)
    requires f.Bias() >= 0 && n > 0 && n + |LARGE_POWER_OF_5| <= MAX_LIMBS
    requires 4 * (sciExp + 1) < 64 * n && 4 * (f.maxDigits - sciExp) - f.Bias() < 64 * n
    ensures InRange(f, sciExp)
  {
    LargeInRange(sciExp + 1, n);
    var k := f.maxDigits - sciExp;
    if k >= f.Bias() { TinyInRange(k, f.Bias(), n); }
  }

  lemma LargeInRange(e: int, n: nat)
    requires n > 0 && n + |LARGE_POWER_OF_5| <= MAX_LIMBS && 4 * e < 64 * n
    ensures Fits(TenUp(e))
  {
    if e >= 0 {
      TensInBits(e);
      FitsBits(TenUp(e), 4 * e, n);
    } else {
      assert Pow(2, 0) == 1;
      FitsBits(1, 0, n);
    }
  }

  lemma TinyInRange(k: nat, bias: nat, n: nat)
    requires bias <= k && n + |LARGE_POWER_OF_5| <= MAX_LIMBS && 4 * k - bias < 64 * n
    ensures Fits(Tiny(k, bias))
  {
    hide Val, Place, Pow;
    TensInBits(k);
    PowAdd(2, 3 * k, k - bias);
    MulLessEq(Pow(2, k - bias), Pow(5, k), Pow(2, 3 * k));
    FitsBits(Tiny(k, bias), 3 * k + (k - bias), n);
  }

  /** binary64 has room, at every exponent that is not out of its range by far. */
  lemma Binary64HasRoom(sciExp: int)
    requires -400 <= sciExp <= 900
    ensures Roomy(BINARY64) && InRange(BINARY64, sciExp)
  {
    RoomyIf(BINARY64, 57);
    InRangeIf(BINARY64, sciExp, 57);
  }

  lemma Binary32HasRoom(sciExp: int)
    requires -400 <= sciExp <= 900
    ensures Roomy(BINARY32) && InRange(BINARY32, sciExp)
  {
    RoomyIf(BINARY32, 57);
    InRangeIf(BINARY32, sciExp, 57);
  }
}
