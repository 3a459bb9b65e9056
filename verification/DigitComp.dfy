/**
 The slow path of decimal to binary conversion: rounding an extended mantissa to a
 format, and deciding by exact comparison where the fast path could not.
 */
module DigitComp {
  import opened Powers
  import opened Limbs
  import opened DecimalDigits
  import opened BigInts
  import opened FloatFormat
  import opened DecimalRounding
  import opened SlowPathRoom
  import opened MantissaDigits
  import opened Options

  /** `adjusted_mantissa`: mantissa * 2^(power2 - bias) before rounding, mantissa and exponent fields after. */
  datatype Adjusted = Adjusted(mantissa: nat, power2: int)

  /** The bits `to_float` makes of the two fields, the sign aside. */
  function ToFloat(f: Format, am: Adjusted): nat
    requires am.power2 >= 0
  {
    BitOr(am.power2 * f.Hidden(), am.mantissa)
  }

  // Rounding.

  /** Patterns beyond infinity are infinity. */
  function Capped(f: Format, k: nat): nat {
    if k < f.Infinity() then k else f.Infinity()
  }

  /** The callback of `round`: drop the low bits, or decide upon oddness and the dropped bits. */
  datatype Rounding = Down | NearestBy(up: (bool, bool, bool) -> bool)

  function Quot(m: nat, shift: nat): nat
    requires Pow(2, shift) > 0
  {
    m / Pow(2, shift)
  }

  function Dropped(m: nat, shift: nat): nat
    requires Pow(2, shift) > 0
  {
    m % Pow(2, shift)
  }

  function Halfway(shift: nat): nat {
    if shift == 0 then 0 else Pow(2, shift - 1)
  }

  /** Whether the callback adds one: the dropped bits against their half. */
  predicate RoundsUp(how: Rounding, m: nat, shift: nat)
    requires Pow(2, shift) > 0
  {
    how.NearestBy? &&
    how.up(Quot(m, shift) % 2 == 1, Dropped(m, shift) == Halfway(shift), Dropped(m, shift) > Halfway(shift))
  }

  lemma ShiftAll(m: nat)
    requires m < BASE
    ensures Pow(2, 64) > 0 && Quot(m, 64) == 0 && Dropped(m, 64) == m
  {
    BaseIsTwoTo64();
  }

  /** `round_down` and `round_nearest_tie_even` */
  method ShiftRight(am: Adjusted, shift: nat, how: Rounding) returns (r: Adjusted)
    requires am.mantissa < BASE && shift <= 64 && Pow(2, shift) > 0
    ensures r == Adjusted(Quot(am.mantissa, shift) + (if RoundsUp(how, am.mantissa, shift) then 1 else 0),
                          am.power2 + shift)
  {
    ShiftAll(am.mantissa);
    var truncatedBits := if shift == 64 then am.mantissa else Dropped(am.mantissa, shift);
    var halfway := Halfway(shift);
    var isAbove := truncatedBits > halfway;
    var isHalfway := truncatedBits == halfway;
    var mantissa := if shift == 64 then 0 else Quot(am.mantissa, shift);
    var isOdd := mantissa % 2 == 1;
    var up := how.NearestBy? && how.up(isOdd, isHalfway, isAbove);
    r := Adjusted(mantissa + (if up then 1 else 0), am.power2 + shift);
  }

  /** How far `round` shifts: to the format's mantissa, further for subnormal results, by 64 at most. */
  function Shift(f: Format, power2: int): int {
    var s := 63 - f.mantBits;
    if -power2 < s then s else if 1 - power2 < 64 then 1 - power2 else 64
  }

  /** The pattern with exponent field e and full mantissa q, hidden bit included. */
  function Pattern(f: Format, e: nat, q: nat): nat
    requires e >= 1
  {
    f.Hidden() * (e - 1) + q
  }

  /** The pattern of the extended mantissa rounded down, were there no largest exponent. */
  function DownPattern(f: Format, am: Adjusted): nat
    requires Shift(f, am.power2) >= 0 && Pow(2, Shift(f, am.power2)) > 0
  {
    var q := Quot(am.mantissa, Shift(f, am.power2));
    if -am.power2 < 63 - f.mantBits
    then Pattern(f, am.power2 + 63 - f.mantBits, q) else q
  }

  lemma QuotientRange(f: Format, m: nat, shift: nat)
    requires Sound(f) && TOP_BIT <= m < BASE && 63 - f.mantBits <= shift <= 64
    ensures Pow(2, shift) > 0
    ensures shift == 63 - f.mantBits ==> f.Hidden() <= Quot(m, shift) < 2 * f.Hidden()
    ensures shift > 63 - f.mantBits ==> Quot(m, shift) < f.Hidden()
  {
    PowPositive(2, shift);
    if shift == 63 - f.mantBits {
      TopSplit(f.mantBits);
      TwiceProduct(f.Hidden(), Pow(2, shift));
      QuotientBetween(m, Pow(2, shift), f.Hidden(), 2 * f.Hidden());
    } else {
      AllSplit(f.mantBits, shift);
      QuotientBetween(m, Pow(2, shift), 0, f.Hidden());
    }
  }

  lemma TwiceProduct(h: nat, p: nat)
    ensures 2 * h * p == 2 * (h * p)
  {}

  lemma TopSplit(n: nat)
    requires n < 64
    ensures Pow(2, n) * Pow(2, 63 - n) == TOP_BIT
  {
    TopBitIsTwoTo63();
    PowAdd(2, n, 63 - n);
  }

  lemma AllSplit(n: nat, shift: nat)
    requires n + shift >= 64
    ensures BASE <= Pow(2, n) * Pow(2, shift)
  {
    BaseIsTwoTo64();
    PowAdd(2, n, shift);
    PowMonotone(2, 64, n + shift);
  }

  lemma QuotientBetween(m: nat, p: nat, a: nat, b: nat)
    requires p > 0 && a * p <= m < b * p
    ensures a <= m / p < b
  {
    var q := m / p;
    assert q * p <= m < (q + 1) * p;
    if q < a { MulLessEq(p, q + 1, a); }
    if q >= b { MulLessEq(p, b, q); }
  }

  lemma PatternFields(f: Format, e: nat, q: nat)
    requires e >= 1 && q >= f.Hidden()
    ensures Pattern(f, e, q) == e * f.Hidden() + (q - f.Hidden())
  {
    assert f.Hidden() * (e - 1) == f.Hidden() * e - f.Hidden();
  }

  lemma PatternCarry(f: Format, e: nat)
    requires e >= 1
    ensures Pattern(f, e, 2 * f.Hidden()) == (e + 1) * f.Hidden()
  {
    assert f.Hidden() * (e - 1) == f.Hidden() * e - f.Hidden();
  }

  /** `am.mantissa &= ~(uint64_t(1) << mantissa_explicit_bits)` */
  function ClearHidden(f: Format, m: nat): nat
    requires f.Hidden() > 0
  {
    if m / f.Hidden() % 2 == 1 then m - f.Hidden() else m
  }

  /** `round`: the pattern rounded down, plus one if the callback says so, infinity at most. */
  method Round(f: Format, am0: Adjusted, how: Rounding) returns (am: Adjusted)
    requires Sound(f) && TOP_BIT <= am0.mantissa < BASE
    ensures 0 <= Shift(f, am0.power2) <= 64 && Pow(2, Shift(f, am0.power2)) > 0
    ensures 0 <= am.power2 <= f.infPower
    ensures var up := RoundsUp(how, am0.mantissa, Shift(f, am0.power2));
      ToFloat(f, am) == Capped(f, DownPattern(f, am0) + (if up then 1 else 0))
  {
    am := am0;
    HiddenPositive(f);
    ghost var up := false;
    var mantissaShift := 64 - f.mantBits - 1;
    if -am.power2 >= mantissaShift {
      var shift := -am.power2 + 1;
      shift := if shift < 64 then shift else 64;
      QuotientRange(f, am.mantissa, shift);
      am := ShiftRight(am, shift, how);
      am := am.(power2 := if am.mantissa < f.Hidden() then 0 else 1);
      SubnormalPattern(f, am);
      return;
    }
    QuotientRange(f, am.mantissa, mantissaShift);
    am := ShiftRight(am, mantissaShift, how);
    ghost var q, e := am.mantissa, am.power2;
    if am.mantissa >= 2 * f.Hidden() {
      am := Adjusted(f.Hidden(), am.power2 + 1);
    }
    am := am.(mantissa := ClearHidden(f, am.mantissa));
    if am.power2 >= f.infPower {
      am := Adjusted(0, f.infPower);
    }
    NormalPattern(f, q, e, am);
  }

  /** A mantissa below the hidden bit and an exponent make the pattern they should. */
  lemma FieldsPattern(f: Format, e: nat, m: nat)
    requires m < f.Hidden()
    ensures ToFloat(f, Adjusted(m, e)) == e * f.Hidden() + m
  {
    BitOrDisjoint(e, m, f.mantBits);
  }

  lemma SubnormalPattern(f: Format, am: Adjusted)
    requires Sound(f) && f.Hidden() > 0 && am.mantissa <= f.Hidden()
    requires am.power2 == if am.mantissa < f.Hidden() then 0 else 1
    ensures ToFloat(f, am) == am.mantissa < f.Infinity()
  {
    MulLessEq(f.Hidden(), 2, f.infPower);
    if am.mantissa < f.Hidden() {
      FieldsPattern(f, 0, am.mantissa);
    } else {
      BitOrSame(f.Hidden());
    }
  }

  lemma ClearedHidden(f: Format, q: nat)
    requires f.Hidden() <= q < 2 * f.Hidden()
    ensures ClearHidden(f, q) == q - f.Hidden()
  {
    DivModIs(q, f.Hidden(), 1, q - f.Hidden());
  }

  lemma InfinitePattern(f: Format, e: nat, m: nat)
    requires Sound(f) && m < f.Hidden() && e >= f.infPower
    ensures ToFloat(f, Adjusted(0, f.infPower)) == f.Infinity() <= e * f.Hidden() + m
  {
    AtOrBelow(f.Hidden(), e, m, f.infPower);
    FieldsPattern(f, f.infPower, 0);
  }

  lemma AtOrBelow(h: nat, e: nat, m: nat, i: nat)
    requires m < h
    ensures if e < i then e * h + m < i * h else i * h <= e * h + m
  {
    if e < i { MulLessEq(h, e + 1, i); } else { MulLessEq(h, i, e); }
  }

  lemma FinitePattern(f: Format, e: nat, m: nat)
    requires Sound(f) && m < f.Hidden() && e < f.infPower
    ensures ToFloat(f, Adjusted(m, e)) == e * f.Hidden() + m < f.Infinity()
  {
    AtOrBelow(f.Hidden(), e, m, f.infPower);
    FieldsPattern(f, e, m);
  }

  /** The pattern of exponent e and mantissa m, infinity if e is too large for the format. */
  lemma CappedPattern(f: Format, e: nat, m: nat)
    requires Sound(f) && m < f.Hidden()
    ensures var k := e * f.Hidden() + m;
      ToFloat(f, if e >= f.infPower then Adjusted(0, f.infPower) else Adjusted(m, e)) == Capped(f, k)
  {
    if e >= f.infPower { InfinitePattern(f, e, m); } else { FinitePattern(f, e, m); }
  }

  lemma NormalPattern(f: Format, q: nat, e: int, am: Adjusted)
    requires Sound(f) && f.Hidden() > 0 && f.Hidden() <= q <= 2 * f.Hidden() && e >= 1
    requires var h := f.Hidden();
      var carried := if q >= 2 * h then Adjusted(h, e + 1) else Adjusted(q, e);
      var cleared := carried.(mantissa := ClearHidden(f, carried.mantissa));
      am == if cleared.power2 >= f.infPower then Adjusted(0, f.infPower) else cleared
    ensures 0 <= am.power2 <= f.infPower
    ensures var k := Pattern(f, e, q);
      ToFloat(f, am) == Capped(f, k)
  {
    var h := f.Hidden();
    if q >= 2 * h {
      ClearedHidden(f, h);
      CappedPattern(f, e + 1, 0);
      PatternCarry(f, e);
    } else {
      ClearedHidden(f, q);
      CappedPattern(f, e, q - h);
      PatternFields(f, e, q);
    }
  }

  // Values against patterns.

  /** In half units: pattern k with exponent field e and full mantissa q is q * 2^e, the next (q + 1) * 2^e. */
  lemma NormalUnits(f: Format, e: nat, q: nat)
    requires e >= 1 && f.Hidden() <= q < 2 * f.Hidden()
    ensures var k := Pattern(f, e, q);
      && 2 * Units(f, k) == q * Pow(2, e)
      && Half(f, k) == (2 * q + 1) * Pow(2, e - 1)
      && 2 * Units(f, k + 1) == (q + 1) * Pow(2, e)
  {
    PatternFields(f, e, q);
    UnitsAt(f, e, q - f.Hidden());
    UnitsNext(f, Pattern(f, e, q));
    HalfSteps(q, Pow(2, e - 1));
  }

  lemma HalfSteps(q: nat, p: nat)
    ensures q * p + (q * p + p) == (2 * q + 1) * p
    ensures 2 * (q * p) == q * (2 * p) && 2 * (q * p + p) == (q + 1) * (2 * p)
  {}

  /** A number with head m, against multiples of the head's unit a. */
  lemma HeadAgainst(x: nat, m: nat, a: nat, mid: nat, truncated: bool)
    requires a > 0 && m * a <= x < (m + 1) * a && (truncated <==> x != m * a)
    ensures Sign(x - mid * a) == if m > mid then 1 else if m < mid then -1 else if truncated then 1 else 0
  {
    if m > mid { MulLess(a, mid, m); }
    if m < mid { MulLessEq(a, m + 1, mid); }
  }

  lemma HeadInside(x: nat, m: nat, a: nat, lo: nat, hi: nat)
    requires m * a <= x < (m + 1) * a && lo <= m < hi
    ensures lo * a <= x < hi * a
  {
    MulLessEq(a, lo, m);
    MulLessEq(a, m + 1, hi);
  }

  lemma Thirds(q: nat, half: nat)
    ensures (2 * q + 1) * half == q * (2 * half) + half
    ensures (q + 1) * (2 * half) == q * (2 * half) + 2 * half
  {}

  /** Where a number with 64-bit head m lies among the multiples of the last kept bit, by the dropped bits. */
  lemma HeadDecides(x: nat, m: nat, a: nat, q: nat, t: nat, half: nat, truncated: bool)
    requires a > 0 && half > 0 && m * a <= x < (m + 1) * a && (truncated <==> x != m * a)
    requires m == q * (2 * half) + t && t < 2 * half
    ensures q * (2 * half) * a <= x < (q + 1) * (2 * half) * a
    ensures Sign(x - (2 * q + 1) * half * a) ==
      if t > half then 1 else if t == half && truncated then 1 else if t == half then 0 else -1
  {
    Thirds(q, half);
    HeadInside(x, m, a, q * (2 * half), (q + 1) * (2 * half));
    HeadAgainst(x, m, a, (2 * q + 1) * half, truncated);
  }

  lemma ShiftedHead(x: nat, w: int, m: nat, truncated: bool, bias: nat, p: nat)
    requires IsHigh64(x, w, m, truncated) && p == w - 64 + bias
    ensures m * Pow(2, p) <= x * Pow(2, bias) < (m + 1) * Pow(2, p)
    ensures truncated <==> x * Pow(2, bias) != m * Pow(2, p)
  {
    PowPositive(2, bias);
    PowPositive(2, p);
    if w >= 64 {
      PowAdd(2, w - 64, bias);
      ScaleHead(x, m, Pow(2, w - 64), Pow(2, bias));
    } else {
      PowAdd(2, 64 - w, p);
      assert x * (Pow(2, 64 - w) * Pow(2, p)) == m * Pow(2, p) by { MulAssoc(x, Pow(2, 64 - w), Pow(2, p)); }
      MulLess(Pow(2, p), m, m + 1);
    }
  }

  lemma ScaleHead(x: nat, m: nat, a: nat, b: nat)
    requires b > 0 && m * a <= x < (m + 1) * a
    ensures m * (a * b) <= x * b < (m + 1) * (a * b)
    ensures x == m * a <==> x * b == m * (a * b)
  {
    MulAssoc(m, a, b);
    MulAssoc(m + 1, a, b);
    MulLessEq(b, m * a, x);
    MulCompare(b, x, (m + 1) * a);
    MulCompare(b, x, m * a);
  }

  // positive_digit_comp

  function PositiveRule(truncated: bool): Rounding {
    NearestBy((isOdd: bool, isHalfway: bool, isAbove: bool) =>
      isAbove || (isHalfway && truncated) || (isOdd && isHalfway))
  }

  /** Rounding the 64-bit head of an integer with its truncation flag rounds the integer. */
  lemma HeadRounds(f: Format, x: nat, w: int, m: nat, truncated: bool, p: nat, s: nat, q: nat, up: bool)
    requires Sound(f) && f.Hidden() > 0 && IsHigh64(x, w, m, truncated)
    requires p == w - 64 + f.Bias() && s == 63 - f.mantBits && Pow(2, s) > 0
    requires q == Quot(m, s) && up == RoundsUp(PositiveRule(truncated), m, s)
    ensures RoundsTo(f, x, 0, Capped(f, Pattern(f, p + s, q) + (if up then 1 else 0)))
  {
    hide Pow;
    QuotientRange(f, m, s);
    HeadBounds(x, w, m, truncated, f.Bias(), p, s);
    HeadRoundsAt(f, x, p + s, q, up);
  }

  /** The comparison with the halfway point, read off the bits that the shift drops. */
  lemma HeadBounds(x: nat, w: int, m: nat, truncated: bool, bias: nat, p: nat, s: nat)
    requires IsHigh64(x, w, m, truncated) && p == w - 64 + bias && s >= 1 && Pow(2, s) > 0
    ensures var q, t, y := Quot(m, s), Dropped(m, s), x * Pow(2, bias);
      && q * Pow(2, p + s) <= y < (q + 1) * Pow(2, p + s)
      && var c := Sign(y - (2 * q + 1) * Pow(2, p + s - 1));
         (RoundsUp(PositiveRule(truncated), m, s) <==> c > 0 || (c == 0 && q % 2 == 1))
  {
    var q, t, half, a := Quot(m, s), Dropped(m, s), Halfway(s), Pow(2, p);
    assert Pow(2, s) == 2 * half;
    PowPositive(2, s - 1);
    PowPositive(2, p);
    ShiftedHead(x, w, m, truncated, bias, p);
    HeadDecides(x * Pow(2, bias), m, a, q, t, half, truncated);
    TwosTogether(q, s, p);
    TwosTogether(q + 1, s, p);
    TwosTogether(2 * q + 1, s - 1, p);
  }

  lemma TwosTogether(k: nat, s: nat, p: nat)
    ensures k * Pow(2, s) * Pow(2, p) == k * Pow(2, p + s)
  {
    PowAdd(2, s, p);
    MulAssoc(k, Pow(2, s), Pow(2, p));
  }

  lemma HeadRoundsAt(f: Format, x: nat, e: nat, q: nat, up: bool)
    requires Sound(f) && e >= 1 && f.Hidden() <= q < 2 * f.Hidden()
    requires q * Pow(2, e) <= x * Pow(2, f.Bias()) < (q + 1) * Pow(2, e)
    requires var c := Sign(x * Pow(2, f.Bias()) - (2 * q + 1) * Pow(2, e - 1)); up <==> c > 0 || (c == 0 && q % 2 == 1)
    ensures var b := Pattern(f, e, q);
      RoundsTo(f, x, 0, Capped(f, b + (if up then 1 else 0)))
  {
    var b := Pattern(f, e, q);
    NormalUnits(f, e, q);
    assert TenUp(0) == 1 && TenDown(0) == 1;
    ParityOfPattern(f, e, q);
    if b < f.Infinity() {
      assert JustBelow(f, x, 0, b);
      RoundsFromBelow(f, x, 0, b, up);
    } else {
      MulLessEq(f.Hidden(), 2, f.infPower);
      if f.Infinity() < b { UnitsIncrease(f, f.Infinity(), b); }
      RoundsToInfinity(f, x, 0);
    }
  }

  lemma ParityOfPattern(f: Format, e: nat, q: nat)
    requires f.mantBits >= 1 && e >= 1
    ensures (Pattern(f, e, q)) % 2 == q % 2
  {
    assert f.Hidden() == 2 * Pow(2, f.mantBits - 1);
    EvenAndRest(Pow(2, f.mantBits - 1), e - 1, q);
  }

  lemma EvenAndRest(h: nat, e: nat, q: nat)
    ensures (2 * h * e + q) % 2 == q % 2
  {
    assert 2 * h * e == 2 * (h * e);
  }

  lemma IntegerRounds(f: Format, a: nat, g: nat, k: nat)
    requires f.Bias() >= 0 && f.Hidden() > 0
    ensures RoundsTo(f, a * Pow(10, g), 0, k) <==> RoundsTo(f, a, g, k)
  {
    forall j | 0 <= j < f.Infinity()
      ensures Compare(f, a * Pow(10, g), 0, Half(f, j)) == Compare(f, a, g, Half(f, j))
    {
      CompareRescale(f, a, g, Half(f, j), g);
    }
    SameComparisonsRoundAlike(f, a * Pow(10, g), 0, a, g, k);
  }

  /** `positive_digit_comp`: the float nearest to big * 10^exponent. */
  method PositiveDigitComp(f: Format, big: BigInt, exponent: nat) returns (answer: Adjusted)
    requires Sound(f) && f.Hidden() > 0 && big.Valid() && big.Value() > 0 && Fits(big.Value() * Pow(10, exponent))
    modifies big
    ensures answer.power2 >= 0 && RoundsTo(f, old(big.Value()), exponent, ToFloat(f, answer))
  {
    hide Pow;
    ghost var a := big.Value();
    big.Pow10(exponent);
    PowPositive(10, exponent);
    assert big.limbs != [];
    var m, truncated := Hi64(big);
    var w := BitWidth(big.limbs);
    WidthPositive(big.limbs);
    var am := Adjusted(m, w - 64 + f.Bias());
    answer := Round(f, am, PositiveRule(truncated));
    ghost var s := 63 - f.mantBits;
    HeadRounds(f, big.Value(), w, m, truncated, am.power2, s, Quot(m, s), RoundsUp(PositiveRule(truncated), m, s));
    IntegerRounds(f, a, exponent, ToFloat(f, answer));
  }

  lemma WidthPositive(a: seq<Limb>)
    requires a != [] && Normal(a)
    ensures BitWidth(a) > 0
  {
    ClzNormalizes(a[|a| - 1]);
  }

  // negative_digit_comp

  /** `to_extended`: full mantissa and power of two of a finite float's pattern. */
  function ToExtended(f: Format, bits: nat): (am: Adjusted)
    requires f.Hidden() > 0
    ensures am.power2 + f.Bias() >= 1
    ensures 2 * Units(f, bits) == am.mantissa * Pow(2, am.power2 + f.Bias())
    ensures Ulp(f, bits) == Pow(2, am.power2 + f.Bias() - 1)
    ensures am.mantissa < 2 * f.Hidden() && (bits == 0 ==> am == Adjusted(0, 1 - f.Bias()))
  {
    var e, m := bits / f.Hidden(), bits % f.Hidden();
    if e == 0 then
      assert Pow(2, 1) == 2;
      Adjusted(m, 1 - f.Bias())
    else
      assert 2 * ((f.Hidden() + m) * Pow(2, e - 1)) == (m + f.Hidden()) * Pow(2, e);
      Adjusted(m + f.Hidden(), e - f.Bias())
  }

  /** `to_extended_halfway`: the point halfway to the next float. */
  function ToExtendedHalfway(f: Format, bits: nat): (am: Adjusted)
    requires f.Hidden() > 0
    ensures am.power2 + f.Bias() >= 0 && Half(f, bits) == am.mantissa * Pow(2, am.power2 + f.Bias())
    ensures am.mantissa < 4 * f.Hidden() && (bits == 0 ==> am == Adjusted(1, -f.Bias()))
  {
    var am := ToExtended(f, bits);
    UnitsNext(f, bits);
    HalfwayOf(am.mantissa, Pow(2, am.power2 + f.Bias() - 1), Units(f, bits));
    Adjusted(am.mantissa * 2 + 1, am.power2 - 1)
  }

  lemma HalfwayOf(m: nat, p: nat, u: nat)
    requires 2 * u == m * (2 * p)
    ensures u + (u + p) == (m * 2 + 1) * p
  {}

  /** Scaling both sides to integers compares a * 10^-k with t * 2^e. */
  lemma ScaledCompare(f: Format, a: nat, k: int, t: nat, e: int)
    requires f.Bias() >= 0 && k > 0 && e + f.Bias() >= 0
    ensures var p: int := e + k;
      var x := if p < 0 then a * Pow(2, -p) else a;
      var y := if p > 0 then t * Pow(5, k) * Pow(2, p) else t * Pow(5, k);
      Compare(f, a, -k, t * Pow(2, e + f.Bias())) == Sign(x - y)
  {
    var b, v := f.Bias(), t * Pow(5, k);
    var p: int := e + k;
    PowMul(2, 5, k);
    PowAdd(2, e + b, k);
    HalfTimesTens(t, Pow(2, e + b), Pow(2, k), Pow(5, k));
    if p >= 0 {
      ScaleUp(a, v, p, b);
      assert p == 0 ==> v * Pow(2, p) == v;
    } else {
      ScaleDown(a, v, -p, b);
    }
  }

  lemma ScaleUp(a: nat, v: nat, p: nat, b: nat)
    ensures Sign(a * Pow(2, b) - v * Pow(2, b + p)) == Sign(a - v * Pow(2, p))
  {
    PowAdd(2, p, b);
    MulAssoc(v, Pow(2, p), Pow(2, b));
    ScaleBoth(a, v * Pow(2, p), b);
  }

  lemma ScaleDown(a: nat, v: nat, q: nat, b: nat)
    requires q <= b
    ensures Sign(a * Pow(2, b) - v * Pow(2, b - q)) == Sign(a * Pow(2, q) - v)
  {
    PowAdd(2, q, b - q);
    MulAssoc(a, Pow(2, q), Pow(2, b - q));
    ScaleBoth(a * Pow(2, q), v, b - q);
  }

  lemma ScaleBoth(x: nat, y: nat, n: nat)
    ensures Sign(x * Pow(2, n) - y * Pow(2, n)) == Sign(x - y)
  {
    PowPositive(2, n);
    SignScale(Pow(2, n), x, y);
  }

  lemma HalfTimesTens(t: nat, h: nat, u: nat, v: nat)
    ensures t * h * (u * v) == t * v * (h * u)
  {}

  function NegativeRule(ord: int): Rounding {
    NearestBy((isOdd: bool, isHalfway: bool, isAbove: bool) =>
      if ord > 0 then true else if ord < 0 then false else isOdd)
  }

  /** Scales the digits and the point halfway above b to integers, and compares them. */
  method CompareHalfway(f: Format, big: BigInt, b: nat, exponent: int) returns (ord: int)
    requires Sound(f) && f.Hidden() > 0 && big.Valid() && exponent < 0
    requires var theor := ToExtendedHalfway(f, b);
      ScaledFits(big.Value(), -exponent, theor.mantissa, theor.power2)
    modifies big
    ensures var c := Compare(f, old(big.Value()), exponent, Half(f, b));
      (ord > 0 <==> c > 0) && (ord < 0 <==> c < 0)
  {
    hide Pow;
    ghost var a := big.Value();
    var theor := ToExtendedHalfway(f, b);
    HalfwayIsLimb(f, theor.mantissa);
    var theorDigits := new BigInt(theor.mantissa);
    var pow2Exp := theor.power2 - exponent;
    var pow5Exp := -exponent;
    if pow5Exp != 0 { theorDigits.Pow5(pow5Exp); }
    if pow2Exp > 0 {
      theorDigits.Pow2(pow2Exp);
    } else if pow2Exp < 0 {
      big.Pow2(-pow2Exp);
    }
    ord := CompareTo(big, theorDigits);
    ScaledCompare(f, a, -exponent, theor.mantissa, theor.power2);
  }

  /** `negative_digit_comp`: one past the pattern rounded down, or not, by comparison with the point halfway. */
  method NegativeDigitComp(f: Format, big: BigInt, am: Adjusted, exponent: int) returns (answer: Adjusted)
    requires Sound(f) && f.Hidden() > 0 && big.Valid() && exponent < 0
    requires TOP_BIT <= am.mantissa < BASE
    requires 0 <= Shift(f, am.power2) && Pow(2, Shift(f, am.power2)) > 0 && DownPattern(f, am) < f.Infinity()
    requires var theor := ToExtendedHalfway(f, DownPattern(f, am));
      ScaledFits(big.Value(), -exponent, theor.mantissa, theor.power2)
    modifies big
    ensures answer.power2 >= 0
    ensures var b := DownPattern(f, am);
      var c := Compare(f, old(big.Value()), exponent, Half(f, b));
      ToFloat(f, answer) == if c > 0 || (c == 0 && b % 2 == 1) then b + 1 else b
  {
    var amB := Round(f, am, Down);
    var ord := CompareHalfway(f, big, ToFloat(f, amB), exponent);
    answer := Round(f, am, NegativeRule(ord));
    DownParity(f, am);
  }

  lemma FourHidden(f: Format)
    ensures 4 * f.Hidden() == Pow(2, f.mantBits + 2)
  {
    assert Pow(2, f.mantBits + 2) == 2 * Pow(2, f.mantBits + 1);
  }

  lemma HalfwayIsLimb(f: Format, t: nat)
    requires Sound(f) && t < 4 * f.Hidden()
    ensures t < BASE
  {
    FourHidden(f);
    BaseIsTwoTo64();
    PowMonotone(2, f.mantBits + 2, 64);
  }

  lemma DownParity(f: Format, am: Adjusted)
    requires Sound(f) && 0 <= Shift(f, am.power2) && Pow(2, Shift(f, am.power2)) > 0
    ensures DownPattern(f, am) % 2 == Quot(am.mantissa, Shift(f, am.power2)) % 2
  {
    if -am.power2 < 63 - f.mantBits {
      ParityOfPattern(f, am.power2 + 63 - f.mantBits, Quot(am.mantissa, Shift(f, am.power2)));
    }
  }

  // digit_comp

  /** The estimate, rounded down, is the finite float at or just below a * 10^g. */
  predicate EstimateBelow(f: Format, am: Adjusted, a: nat, g: int)
    requires f.Bias() >= 0 && f.Hidden() > 0
  {
    && TOP_BIT <= am.mantissa < BASE
    && 0 <= Shift(f, am.power2) && Pow(2, Shift(f, am.power2)) > 0
    && JustBelow(f, a, g, DownPattern(f, am))
  }

  /** The digits kept are not below the halfway point before the estimate either. */
  lemma NotBelowHalfBefore(f: Format, s: seq<Digit>, number: nat, digits: nat, b: nat, exponent: int)
    requires Sound(f) && f.Hidden() > 0 && s != [] && s[0] != 0 && Kept(s, f.maxDigits, number, digits)
    requires JustBelow(f, Number(s), exponent - |s|, b) && b > 0
    ensures Compare(f, number, exponent - digits, Half(f, b - 1)) >= 0
  {
    UnitsIncrease(f, b - 1, b);
    CompareMonotoneHalf(f, Number(s), exponent - |s|, Half(f, b - 1), 2 * Units(f, b));
    KeptComparesAlike(f, s, exponent, number, digits, b - 1);
  }

  /** The digits kept and the halfway point that they are compared with fit the storage. */
  lemma NegativeFits(f: Format, number: nat, digits: nat, b: nat, exponent: int)
    requires Sound(f) && f.Hidden() > 0 && Roomy(f) && InRange(f, exponent - 1)
    requires number < Pow(10, digits) && digits <= f.maxDigits + 1 && exponent < digits
    requires b > 0 ==> Compare(f, number, exponent - digits, Half(f, b - 1)) >= 0
    ensures var theor := ToExtendedHalfway(f, b);
      ScaledFits(number, digits - exponent, theor.mantissa, theor.power2)
  {
    var theor := ToExtendedHalfway(f, b);
    var k: int := digits - exponent;
    PowMonotone(10, digits, f.maxDigits + 1);
    FourHidden(f);
    assert exponent - digits == -k;
    ComparisonFits(f, number, k, b, theor.mantissa, theor.power2, exponent - 1);
  }

  /** The digits kept decide between the estimate and its successor as all the digits do. */
  lemma KeptDecides(f: Format, s: seq<Digit>, number: nat, digits: nat, b: nat, exponent: int)
    requires Sound(f) && f.Hidden() > 0 && s != [] && s[0] != 0 && Kept(s, f.maxDigits, number, digits)
    requires JustBelow(f, Number(s), exponent - |s|, b)
    ensures var c := Compare(f, number, exponent - digits, Half(f, b));
      RoundsTo(f, Number(s), exponent - |s|, if c > 0 || (c == 0 && b % 2 == 1) then b + 1 else b)
  {
    hide Pow;
    KeptComparesAlike(f, s, exponent, number, digits, b);
    var c := Compare(f, number, exponent - digits, Half(f, b));
    RoundsFromBelow(f, Number(s), exponent - |s|, b, c > 0 || (c == 0 && b % 2 == 1));
  }

  /** The branch of digits kept that end at the decimal point or before. */
  method AtPoint(f: Format, big: BigInt, ghost s: seq<Digit>, digits: nat, exponent: nat) returns (answer: Adjusted)
    requires Sound(f) && f.Hidden() > 0 && InRange(f, digits + exponent - 1)
    requires s != [] && s[0] != 0 && big.Valid() && Kept(s, f.maxDigits, big.Value(), digits)
    modifies big
    ensures answer.power2 >= 0
    ensures RoundsTo(f, Number(s), digits + exponent - |s|, ToFloat(f, answer))
  {
    ghost var number := big.Value();
    KeptPositive(s, f.maxDigits, number, digits);
    KeptBound(s, f.maxDigits, number, digits);
    LargeFits(number, digits, exponent, digits + exponent);
    answer := PositiveDigitComp(f, big, exponent);
    KeptRoundsAlike(f, s, digits + exponent, number, digits, ToFloat(f, answer));
  }

  /** The branch of digits kept that reach below the decimal point. */
  method BelowPoint(f: Format, big: BigInt, am: Adjusted, ghost s: seq<Digit>, digits: nat, exponent: int)
      returns (answer: Adjusted)
    requires Sound(f) && f.Hidden() > 0 && Roomy(f) && InRange(f, exponent - 1)
    requires s != [] && s[0] != 0 && big.Valid() && Kept(s, f.maxDigits, big.Value(), digits) && exponent < digits
    requires EstimateBelow(f, am, Number(s), exponent - |s|)
    modifies big
    ensures answer.power2 >= 0
    ensures RoundsTo(f, Number(s), exponent - |s|, ToFloat(f, answer))
  {
    ghost var b, number := DownPattern(f, am), big.Value();
    KeptBound(s, f.maxDigits, number, digits);
    if b > 0 { NotBelowHalfBefore(f, s, number, digits, b, exponent); }
    NegativeFits(f, number, digits, b, exponent);
    answer := NegativeDigitComp(f, big, am, exponent - digits);
    KeptDecides(f, s, number, digits, b, exponent);
  }

  /**
   `digit_comp`: the float nearest to the number that the digits write with their leading
   significant digit at place 10^sciExp, ties to even. The estimate am is only used when the
   digits kept reach below the decimal point. The integers stay within their fixed storage.
   */
  method DigitComp(f: Format, am: Adjusted, integer: seq<Digit>, fraction: Option<seq<Digit>>, sciExp: int)
      returns (answer: Adjusted)
    requires Sound(f) && f.Hidden() > 0 && Roomy(f) && InRange(f, sciExp)
    requires Significant(Digits(integer, fraction)) != []
    requires var s := Significant(Digits(integer, fraction));
      sciExp + 1 < KeptCount(s, f.maxDigits) ==> EstimateBelow(f, am, Number(s), sciExp + 1 - |s|)
    ensures answer.power2 >= 0
    ensures var s := Significant(Digits(integer, fraction));
      RoundsTo(f, Number(s), sciExp + 1 - |s|, ToFloat(f, answer))
  {
    hide Number, Pow;
    ghost var s := Significant(Digits(integer, fraction));
    var big := new BigInt(0);
    DigitsFit(f, Pow(10, f.maxDigits + 1));
    var digits := ParseMantissa(f, big, integer, fraction);
    var exponent := sciExp + 1 - digits;
    if exponent >= 0 {
      answer := AtPoint(f, big, s, digits, exponent);
    } else {
      answer := BelowPoint(f, big, am, s, digits, sciExp + 1);
    }
  }

  lemma KeptPositive(s: seq<Digit>, max: nat, number: nat, digits: nat)
    requires s != [] && s[0] != 0 && max >= 1 && Kept(s, max, number, digits)
    ensures number > 0
  {
    var r := if |s| <= max then s else s[..max];
    LeadingDigit(r);
    PowPositive(10, |r| - 1);
  }
}
