/**
 The big integer of the decimal slow path: its operations on limbs in storage of a fixed size,
 its high 64 bits, powers of five.
 */
module BigInts {
  import opened Powers
  import opened Limbs
  import opened LimbOps
  import opened LimbDifference
  import opened BigIntegers
  import opened BigIntegerProducts

  /** `max_limbs`: how many limbs the storage holds. */
  const MAX_LIMBS: nat := 4000 / 64

  /** The limbs in an array of n. */
  method InArray(s: seq<Limb>, n: nat) returns (a: array<Limb>)
    requires |s| <= n
    ensures fresh(a) && a.Length == n && a[..|s|] == s
  {
    a := new Limb[n];
    var i := 0;
    while i < |s|
      invariant i <= |s| && a[..i] == s[..i]
    {
      a[i] := s[i];
      i := i + 1;
    }
  }

  /** The product of two numbers, the longer taken first. */
  method ProductOf(s: seq<Limb>, r: seq<Limb>) returns (t: seq<Limb>)
    requires s != [] && r != [] && Normal(s) && Normal(r)
    ensures |t| <= |s| + |r| && Normal(t) && Val(t) == Val(s) * Val(r)
  {
    if |s| < |r| {
      t := ProductOrdered(r, s);
      Commute(Val(r), Val(s));
    } else {
      t := ProductOrdered(s, r);
    }
  }

  method ProductOrdered(s: seq<Limb>, r: seq<Limb>) returns (t: seq<Limb>)
    requires 1 <= |r| <= |s| && Normal(s) && Normal(r)
    ensures |t| <= |s| + |r| && Normal(t) && Val(t) == Val(s) * Val(r)
  {
    var p := InArray(s, |s|);
    var q := InArray(r, |r|);
    var a := new Limb[|s| + |r|];
    assert p[..|s|] == s && q[..|r|] == r;
    var len := Product(a, p, |s|, q, |r|);
    t := a[..len];
  }

  /** `inplace_biginteger`, not negative. Where an operation reserves limbs, they must fit the storage. */
  class BigInt {
    var limbs: seq<Limb>

    ghost predicate Valid()
      reads this
    {
      Normal(limbs) && |limbs| <= MAX_LIMBS
    }

    ghost function Value(): nat
      reads this
    {
      Val(limbs)
    }

    constructor (n: Limb)
      ensures Valid() && Value() == n
    {
      limbs := if n == 0 then [] else [n];
      new;
      if n != 0 { OneLimbVal([n]); }
    }

    /** `_mul_ui_impl` */
    method MulLimb(m: Limb)
      requires Valid() && (|limbs| < MAX_LIMBS || m == 0)
      modifies this
      ensures Valid() && Value() == old(Value()) * m
    {
      if |limbs| == 0 || m == 0 {
        limbs := [];
        return;
      }
      var a := InArray(limbs, |limbs| + 1);
      var len, cf := ProductByLimb(a, a, |limbs|, m);
      limbs := a[..len];
    }

    /** `_mul_impl` */
    method Mul(b: seq<Limb>)
      requires Valid() && Normal(b) && (limbs == [] || b == [] || |limbs| + |b| <= MAX_LIMBS)
      modifies this
      ensures Valid() && Value() == old(Value()) * Val(b)
    {
      if |limbs| == 0 || |b| == 0 {
        limbs := [];
        return;
      }
      limbs := ProductOf(limbs, b);
    }

    /** `_addsub_impl` with one limb. */
    method Add(y: Limb)
      requires Valid() && |limbs| < MAX_LIMBS
      modifies this
      ensures Valid() && Value() == old(Value()) + y
    {
      if |limbs| == 0 {
        limbs := if y == 0 then [] else [y];
        if y != 0 { OneLimbVal([y]); }
        return;
      }
      var a := InArray(limbs, |limbs| + 1);
      var len := AddToMagnitude(a, a, |limbs|, y);
      limbs := a[..len];
    }

    method AddNative(power: Limb, value: Limb)
      requires Valid() && Length(Value() * power + value) < MAX_LIMBS
      modifies this
      ensures Valid() && Value() == old(Value()) * power + value
    {
      LengthIs(limbs);
      if power > 0 {
        MulGrows(Value(), power);
        LengthMonotone(Value(), Value() * power + value);
      }
      LengthMonotone(Value() * power, Value() * power + value);
      MulLimb(power);
      LengthIs(limbs);
      Add(value);
    }

    /** Multiplies by 5^exp: steps of 5^135, steps of 5^27, then one table entry. */
    method Pow5(exp: nat)
      requires Valid() && Length(Value() * Pow(5, exp)) + |LARGE_POWER_OF_5| <= MAX_LIMBS
      modifies this
      ensures Valid() && Value() == old(Value()) * Pow(5, exp)
    {
      hide Val;
      var e := exp;
      ghost var v := Value();
      while e >= LARGE_STEP
        invariant Valid() && 0 <= e <= exp && Value() == v * Pow(5, exp - e)
      {
        StepFits(limbs, v, exp - e, exp);
        LargeIsPower();
        StepPower(v, exp - e, LARGE_STEP);
        Mul(LARGE_POWER_OF_5);
        e := e - LARGE_STEP;
      }
      while e >= SMALL_STEP
        invariant Valid() && 0 <= e <= exp && Value() == v * Pow(5, exp - e)
      {
        StepFits(limbs, v, exp - e, exp);
        TableOfFives(SMALL_STEP);
        StepPower(v, exp - e, SMALL_STEP);
        MulLimb(MAX_NATIVE);
        e := e - SMALL_STEP;
      }
      if e != 0 {
        StepFits(limbs, v, exp - e, exp);
        TableOfFives(e);
        StepPower(v, exp - e, e);
        MulLimb(SMALL_POWER_OF_5[e]);
      }
    }

    /** `_mul_2exp_impl`: multiplies by 2^exp. */
    method Pow2(exp: nat)
      requires Valid() && Length(Value() * Pow(2, exp)) < MAX_LIMBS
      modifies this
      ensures Valid() && Value() == old(Value()) * Pow(2, exp)
    {
      if |limbs| == 0 {
        return;
      }
      var offset, shift := exp / 64, exp % 64;
      ShiftLength(limbs, offset, shift, exp);
      ShiftIsLimb(shift);
      var a := InArray(limbs, |limbs| + 1);
      var len, cf := ProductByLimb(a, a, |limbs|, Pow(2, shift));
      var zeros: seq<Limb> := seq(offset, _ => 0);
      ShiftedUp(a[..len], zeros, Val(limbs), shift, offset);
      limbs := zeros + a[..len];
      LengthIs(limbs);
    }

    method Pow10(exp: nat)
      requires Valid() && Length(Value() * Pow(10, exp)) + |LARGE_POWER_OF_5| <= MAX_LIMBS
      modifies this
      ensures Valid() && Value() == old(Value()) * Pow(10, exp)
    {
      ghost var v := Value();
      PowMul(5, 2, exp);
      MulAssoc(v, Pow(5, exp), Pow(2, exp));
      PowPositive(2, exp);
      MulGrows(v * Pow(5, exp), Pow(2, exp));
      LengthMonotone(v * Pow(5, exp), v * Pow(10, exp));
      Pow5(exp);
      Pow2(exp);
    }
  }

  /** `_compare_impl` */
  method CompareTo(a: BigInt, b: BigInt) returns (ord: int)
    requires a.Valid() && b.Valid()
    ensures ord < 0 <==> a.Value() < b.Value()
    ensures ord > 0 <==> a.Value() > b.Value()
  {
    var s, r := a.limbs, b.limbs;
    LongerIsMore(s, r);
    LongerIsMore(r, s);
    if |s| != |r| {
      return if |s| < |r| then -1 else 1;
    }
    var i := |s|;
    while i > 0 && s[i - 1] == r[i - 1]
      invariant 0 <= i <= |s| && forall k | i <= k < |s| :: s[k] == r[k]
    {
      i := i - 1;
    }
    HighestDecides(s, r, i);
    ord := if i == 0 then 0 else if s[i - 1] < r[i - 1] then -1 else 1;
  }

  /** What is left after some of the steps fits with room for the next one. */
  lemma StepFits(a: seq<Limb>, v: nat, done: nat, exp: nat)
    requires Normal(a) && done <= exp && Val(a) == v * Pow(5, done)
    ensures |a| <= Length(v * Pow(5, exp))
  {
    LengthIs(a);
    PowMonotone(5, done, exp);
    MulLessEq(v, Pow(5, done), Pow(5, exp));
    LengthMonotone(Val(a), v * Pow(5, exp));
  }

  /** Shifting by whole limbs makes the number as much longer at least. */
  lemma ShiftLength(a: seq<Limb>, offset: nat, shift: nat, exp: nat)
    requires a != [] && Normal(a) && exp == 64 * offset + shift
    ensures |a| + offset <= Length(Val(a) * Pow(2, exp))
  {
    ValTop(a);
    ShiftedAtLeast(|a| - 1, Val(a), offset, shift, exp);
    LengthAtLeast(Val(a) * Pow(2, exp), |a| - 1 + offset);
  }

  lemma ShiftedAtLeast(n: nat, v: nat, offset: nat, shift: nat, exp: nat)
    requires Pow(BASE, n) <= v && exp == 64 * offset + shift
    ensures Pow(BASE, n + offset) <= v * Pow(2, exp)
  {
    BasePower(shift, offset);
    PowPositive(2, shift);
    PowAdd(BASE, n, offset);
    ShiftedMore(Pow(BASE, n), v, Pow(BASE, offset), Pow(2, shift));
  }

  lemma ShiftedMore(t: nat, v: nat, b: nat, p: nat)
    requires t <= v && p > 0
    ensures t * b <= v * (p * b)
  {
    MulLessEq(b, t, v);
    MulGrows(v * b, p);
    MulAssoc(v, b, p);
  }

  /** Zero limbs below. */
  lemma ShiftedUp(a: seq<Limb>, z: seq<Limb>, v: nat, shift: nat, offset: nat)
    requires a != [] && Normal(a) && Val(a) == v * Pow(2, shift)
    requires |z| == offset && forall i | 0 <= i < offset :: z[i] == 0
    ensures Normal(z + a) && Val(z + a) == v * Pow(2, 64 * offset + shift)
  {
    ValZeros(z);
    ValAppend(z, a);
    BasePower(shift, offset);
    MulAssoc(v, Pow(2, shift), Pow(BASE, offset));
    Commute(Pow(BASE, offset), Val(a));
  }

  lemma StepPower(v: nat, done: nat, step: nat)
    ensures v * Pow(5, done) * Pow(5, step) == v * Pow(5, done + step)
  {
    PowAdd(5, done, step);
    MulAssoc(v, Pow(5, done), Pow(5, step));
  }

  const LARGE_STEP: nat := 135
  const SMALL_STEP: nat := 27
  const MAX_NATIVE: Limb := 7450580596923828125

  const LARGE_POWER_OF_5: seq<Limb> := [
    1414648277510068013, 9180637584431281687, 4539964771860779200, 10482974169319127550,
    198276706040285095]

  const SMALL_POWER_OF_5: seq<Limb> := [
    1, 5, 25, 125, 625, 3125, 15625, 78125, 390625, 1953125, 9765625, 48828125, 244140625,
    1220703125, 6103515625, 30517578125, 152587890625, 762939453125, 3814697265625,
    19073486328125, 95367431640625, 476837158203125, 2384185791015625, 11920928955078125,
    59604644775390625, 298023223876953125, 1490116119384765625, 7450580596923828125]

  const POWERS_OF_TEN: seq<Limb> := [
    1, 10, 100, 1000, 10000, 100000, 1000000, 10000000, 100000000, 1000000000, 10000000000,
    100000000000, 1000000000000, 10000000000000, 100000000000000, 1000000000000000,
    10000000000000000, 100000000000000000, 1000000000000000000, 10000000000000000000]

  lemma FivesStep()
    ensures |SMALL_POWER_OF_5| == 28 && SMALL_POWER_OF_5[0] == 1 && SMALL_POWER_OF_5[27] == MAX_NATIVE
    ensures forall i | 0 <= i < 27 :: SMALL_POWER_OF_5[i + 1] == 5 * SMALL_POWER_OF_5[i]
  {}

  /** The table of small powers of five is right. */
  lemma {:induction false} TableOfFives(e: nat)
    requires e <= 27
    ensures |SMALL_POWER_OF_5| == 28 && SMALL_POWER_OF_5[e] == Pow(5, e)
    ensures MAX_NATIVE == SMALL_POWER_OF_5[27]
  {
    FivesStep();
    if e > 0 {
      TableOfFives(e - 1);
      assert SMALL_POWER_OF_5[e - 1 + 1] == 5 * SMALL_POWER_OF_5[e - 1];
    }
  }

  lemma TensStep()
    ensures |POWERS_OF_TEN| == 20 && POWERS_OF_TEN[0] == 1
    ensures forall i | 0 <= i < 19 :: POWERS_OF_TEN[i + 1] == 10 * POWERS_OF_TEN[i]
  {}

  /** The table of powers of ten is right. */
  lemma {:induction false} TableOfTens(e: nat)
    requires e <= 19
    ensures |POWERS_OF_TEN| == 20 && POWERS_OF_TEN[e] == Pow(10, e)
  {
    TensStep();
    if e > 0 {
      TableOfTens(e - 1);
      assert POWERS_OF_TEN[e - 1 + 1] == 10 * POWERS_OF_TEN[e - 1];
    }
  }

  /** The five limbs of the large step hold 5^135. */
  lemma LargeIsPower()
    ensures Val(LARGE_POWER_OF_5) == Pow(5, LARGE_STEP) && Normal(LARGE_POWER_OF_5) && |LARGE_POWER_OF_5| == 5
  {
    TableOfFives(27);
    PowAdd(5, 27, 27);
    PowAdd(5, 54, 54);
    PowAdd(5, 108, 27);
    var a := LARGE_POWER_OF_5;
    ValPrefix(a, 0);
    ValPrefix(a, 1);
    ValPrefix(a, 2);
    ValPrefix(a, 3);
    ValPrefix(a, 4);
    assert a[..0] == [] && a[..5] == a;
    assert Pow(BASE, 1) == BASE;
    assert Pow(BASE, 2) == BASE * Pow(BASE, 1);
    assert Pow(BASE, 3) == BASE * Pow(BASE, 2);
    assert Pow(BASE, 4) == BASE * Pow(BASE, 3);
  }

  // The high 64 bits.

  /** Bitwise or. */
  function BitOr(x: nat, y: nat): nat {
    if x == 0 then y
    else 2 * BitOr(x / 2, y / 2) + (if x % 2 == 1 || y % 2 == 1 then 1 else 0)
  }

  lemma {:induction false} BitOrZero(x: nat)
    ensures BitOr(x, 0) == x
  {
    if x > 0 { BitOrZero(x / 2); }
  }

  lemma {:induction false} BitOrSame(x: nat)
    ensures BitOr(x, x) == x
  {
    if x > 0 { BitOrSame(x / 2); }
  }

  /** Numbers without common bits: or is sum. */
  lemma {:induction false} BitOrDisjoint(x: nat, y: nat, c: nat)
    requires y < Pow(2, c)
    ensures BitOr(x * Pow(2, c), y) == x * Pow(2, c) + y
    decreases c
  {
    if c == 0 {
      BitOrZero(x);
    } else {
      var p := Pow(2, c - 1);
      assert x * Pow(2, c) == 2 * (x * p);
      BitOrDisjoint(x, y / 2, c - 1);
    }
  }

  /** `bit_width` of a non-zero big integer. */
  function BitWidth(a: seq<Limb>): int
    requires a != [] && Normal(a)
  {
    64 * |a| - Clz(a[|a| - 1])
  }

  /** m is the top 64 bits of x, which is w bits wide, and truncated says whether other bits were set. */
  predicate IsHigh64(x: nat, w: int, m: nat, truncated: bool) {
    && TOP_BIT <= m < BASE
    && (w >= 64 ==>
         && m * Pow(2, w - 64) <= x < (m + 1) * Pow(2, w - 64)
         && (truncated <==> x != m * Pow(2, w - 64)))
    && (w < 64 ==> w > 0 && x * Pow(2, 64 - w) == m && !truncated)
  }

  /** `uint64_hi64(r0, r1, truncated)` */
  method Hi64OfTwo(r0: Limb, r1: Limb) returns (m: nat, truncated: bool)
    requires r0 > 0
    ensures Clz(r0) <= 64 && IsTop(r0 * BASE + r1, Pow(2, 64 - Clz(r0)), m, truncated)
  {
    var shl := Clz(r0);
    ClzNormalizes(r0);
    if shl == 0 {
      FullLimb(r0, r1);
      truncated := r1 != 0;
      m := r0;
    } else {
      m, truncated := Join(r0, r1, shl);
    }
  }

  method Join(r0: Limb, r1: Limb, shl: nat) returns (m: nat, truncated: bool)
    requires 0 < shl < 64 && TOP_BIT <= r0 * Pow(2, shl) < BASE
    ensures IsTop(r0 * BASE + r1, Pow(2, 64 - shl), m, truncated)
  {
    var shr := 64 - shl;
    JoinLimbs(r0, r1, shl, shr);
    BitOrDisjoint(r0, r1 / Pow(2, shr), shl);
    truncated := r1 * Pow(2, shl) % BASE != 0;
    m := BitOr(r0 * Pow(2, shl), r1 / Pow(2, shr));
  }

  lemma FullLimb(r0: Limb, r1: Limb)
    requires TOP_BIT <= r0 * Pow(2, 0) < BASE
    ensures IsTop(r0 * BASE + r1, Pow(2, 64), r0, r1 != 0)
  {
    BaseIsTwoTo64();
    assert Pow(2, 0) == 1;
  }

  /** x is m, a full limb, shifted up by the factor q, with truncated further bits. */
  predicate IsTop(x: nat, q: nat, m: nat, truncated: bool) {
    TOP_BIT <= m < BASE && m * q <= x < (m + 1) * q && (truncated <==> x != m * q)
  }

  lemma JoinLimbs(r0: nat, r1: nat, shl: nat, shr: nat)
    requires shl + shr == 64 && r1 < BASE && TOP_BIT <= r0 * Pow(2, shl) < BASE
    ensures Pow(2, shr) > 0
    ensures r1 / Pow(2, shr) < Pow(2, shl)
    ensures IsTop(r0 * BASE + r1, Pow(2, shr), r0 * Pow(2, shl) + r1 / Pow(2, shr),
                  r1 * Pow(2, shl) % BASE != 0)
  {
    hide Val, Place, Pow;
    BaseIsTwoTo64();
    PowAdd(2, shl, shr);
    PowPositive(2, shr);
    PowPositive(2, shl);
    var a, b := Pow(2, shl), Pow(2, shr);
    var q, t := QuotRem(r1, b);
    JoinParts(r0, r1, a, b, q, t);
  }

  lemma QuotRem(r: nat, b: nat) returns (q: nat, t: nat)
    requires b > 0
    ensures q == r / b && r == q * b + t && t < b
  {
    q, t := r / b, r % b;
  }

  lemma JoinParts(r0: nat, r1: nat, a: nat, b: nat, q: nat, t: nat)
    requires a > 0 && b > 0 && a * b == BASE && r1 < BASE && r1 == q * b + t && t < b
    requires TOP_BIT <= r0 * a < BASE
    ensures q < a && IsTop(r0 * BASE + r1, b, r0 * a + q, r1 * a % BASE != 0)
  {
    if q >= a { MulLessEq(b, a, q); }
    assert r0 * a + q < BASE by { Room(r0, a, b, q); }
    assert (r0 * a + q) * b == r0 * BASE + q * b by { ShiftedSum(r0, a, b, q); }
    assert (r0 * a + q + 1) * b == (r0 * a + q) * b + b;
    assert r1 * a == q * BASE + t * a by { ShiftedRest(a, b, q, t); }
    MulLess(a, t, b);
    DivModIs(r1 * a, BASE, q, t * a);
    if t > 0 { MulLessEq(a, 1, t); }
  }

  /** A multiple of a below a * b leaves room for q < a. */
  lemma Room(r: nat, a: nat, b: nat, q: nat)
    requires q < a && r * a < a * b
    ensures r * a + q < a * b
  {
    MulCompare(a, r, b);
    MulLessEq(a, r + 1, b);
  }

  lemma ShiftedSum(r: nat, a: nat, b: nat, q: nat)
    ensures (r * a + q) * b == r * (a * b) + q * b
  {}

  lemma ShiftedRest(a: nat, b: nat, q: nat, t: nat)
    ensures (q * b + t) * a == q * (a * b) + t * a
  {}

  /** The high 64 bits of a big integer, and whether any bit below them is set. */
  method Hi64(big: BigInt) returns (m: nat, truncated: bool)
    requires big.Valid()
    ensures big.limbs == [] ==> m == 0 && !truncated
    ensures big.limbs != [] ==> IsHigh64(big.Value(), BitWidth(big.limbs), m, truncated)
  {
    var a := big.limbs;
    var n := |a|;
    if n == 0 {
      return 0, false;
    }
    ClzNormalizes(a[n - 1]);
    if n == 1 {
      m, truncated := a[0] * Pow(2, Clz(a[0])), false;
      OneLimb(a);
      return;
    }
    m, truncated := Hi64OfTwo(a[n - 1], a[n - 2]);
    TopOfMany(a, m, truncated);
    var found := ReverseFindNotZero(a, n - 2);
    truncated := truncated || found != 0;
  }

  /** `reverse_find_not_n(a, 0, n)`: one past the highest limb below n that is not zero, or 0. */
  method ReverseFindNotZero(a: seq<Limb>, n: nat) returns (i: nat)
    requires n <= |a|
    ensures i != 0 <==> Val(a[..n]) != 0
  {
    i := n;
    while i > 0 && a[i - 1] == 0
      invariant i <= n && Val(a[..n]) == Val(a[..i])
    {
      i := i - 1;
      ValPrefix(a, i);
    }
    if i > 0 {
      ValTop(a[..i]);
    }
  }

  lemma OneLimb(a: seq<Limb>)
    requires |a| == 1 && a[0] > 0 && Clz(a[0]) < 64 && TOP_BIT <= a[0] * Pow(2, Clz(a[0])) < BASE
    ensures IsHigh64(Val(a), BitWidth(a), a[0] * Pow(2, Clz(a[0])), false)
  {
    assert a[..0] == [];
    assert Pow(BASE, 0) == 1 && Pow(2, 0) == 1;
  }

  /** From the top two limbs to the whole number, the lower limbs counting as further bits. */
  lemma TopOfMany(a: seq<Limb>, m: nat, truncated: bool)
    requires var n := |a|; n >= 2 && a[n - 1] > 0 && Clz(a[n - 1]) < 64
    requires var n := |a|; IsTop(a[n - 1] * BASE + a[n - 2], Pow(2, 64 - Clz(a[n - 1])), m, truncated)
    ensures IsHigh64(Val(a), BitWidth(a), m, truncated || Val(a[..|a| - 2]) != 0)
  {
    var n := |a|;
    var c := 64 - Clz(a[n - 1]);
    TopTwo(a);
    BasePower(c, n - 2);
    Widen(a[n - 1] * BASE + a[n - 2], Pow(2, c), m, truncated, Val(a[..n - 2]), Pow(BASE, n - 2));
  }

  lemma BasePower(c: nat, n: nat)
    ensures Pow(2, 64 * n + c) == Pow(2, c) * Pow(BASE, n)
  {
    BaseIsTwoTo64();
    PowPow(2, 64, n);
    PowAdd(2, c, 64 * n);
  }

  lemma Widen(r: nat, q: nat, m: nat, truncated: bool, low: nat, p: nat)
    requires IsTop(r, q, m, truncated) && low < p
    ensures m * (q * p) <= r * p + low < (m + 1) * (q * p)
    ensures r * p + low != m * (q * p) <==> truncated || low != 0
  {
    MulAssoc(m, q, p);
    MulAssoc(m + 1, q, p);
    MulLessEq(p, m * q, r);
    MulLessEq(p, r + 1, (m + 1) * q);
    MulCompare(p, m * q, r);
    if m * q < r { MulLessEq(p, m * q + 1, r); }
  }
}
