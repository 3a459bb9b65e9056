/** Natural numbers as sequences of 64-bit limbs, least significant first. */
module Limbs {
  import opened Powers

  const BASE: nat := 0x1_0000_0000_0000_0000

  type Limb = x: int | 0 <= x < BASE

  /** x, i places up: x * BASE^i. */
  function Place(x: int, i: nat): (r: int)
    ensures x >= 0 ==> r >= 0
  {
    if i == 0 then x else BASE * Place(x, i - 1)
  }

  function Val(a: seq<Limb>): nat {
    if a == [] then 0 else Val(a[..|a| - 1]) + Place(a[|a| - 1], |a| - 1)
  }

  /** The top limb is not zero. */
  predicate Normal(a: seq<Limb>) {
    a == [] || a[|a| - 1] != 0
  }

  lemma {:induction false} PlaceIs(x: int, i: nat)
    ensures Place(x, i) == x * Pow(BASE, i)
  {
    if i > 0 {
      PlaceIs(x, i - 1);
      MulAssoc(x, BASE, Pow(BASE, i - 1));
      MulAssoc(BASE, x, Pow(BASE, i - 1));
    }
  }

  lemma {:induction false} PlaceAdd(x: int, y: int, i: nat)
    ensures Place(x + y, i) == Place(x, i) + Place(y, i)
  {
    if i > 0 { PlaceAdd(x, y, i - 1); }
  }

  lemma {:induction false} PlaceUp(x: int, i: nat)
    ensures Place(BASE * x, i) == Place(x, i + 1)
  {
    if i > 0 { PlaceUp(x, i - 1); }
  }

  lemma {:induction false} PlacePlace(x: int, i: nat, j: nat)
    ensures Place(Place(x, i), j) == Place(x, i + j)
  {
    if j > 0 { PlacePlace(x, i, j - 1); }
  }

  lemma PlaceZero(x: int)
    ensures Place(x, 0) == x
  {}

  lemma NoLimbs()
    ensures Val([]) == 0
  {}

  lemma BaseIsTwoTo64()
    ensures Pow(2, 64) == BASE
  {
    assert Pow(2, 8) == 256;
    PowAdd(2, 8, 8);
    PowAdd(2, 16, 16);
    PowAdd(2, 32, 32);
  }

  lemma ValSnoc(a: seq<Limb>, x: Limb)
    ensures Val(a + [x]) == Val(a) + Place(x, |a|)
  {
    assert (a + [x])[..|a|] == a;
  }

  lemma PrefixPlace(a: seq<Limb>, i: nat)
    requires i < |a|
    ensures Val(a[..i + 1]) == Val(a[..i]) + Place(a[i], i)
  {
    assert a[..i + 1][..i] == a[..i];
  }

  lemma ValPrefix(a: seq<Limb>, i: nat)
    requires i < |a|
    ensures Val(a[..i + 1]) == Val(a[..i]) + a[i] * Pow(BASE, i)
  {
    PrefixPlace(a, i);
    PlaceIs(a[i], i);
  }

  lemma Distribute(a: int, b: int, c: int)
    ensures a * (b + c) == a * b + a * c
    ensures (b + c) * a == b * a + c * a
  {}

  lemma {:induction false} AppendPlace(a: seq<Limb>, b: seq<Limb>)
    ensures Val(a + b) == Val(a) + Place(Val(b), |a|)
  {
    if b == [] {
      assert a + b == a;
      PlaceIs(0, |a|);
    } else {
      var n := |b| - 1;
      assert (a + b)[..|a| + n] == a + b[..n];
      AppendPlace(a, b[..n]);
      PlacePlace(b[n], n, |a|);
      PlaceAdd(Val(b[..n]), Place(b[n], n), |a|);
    }
  }

  lemma ValAppend(a: seq<Limb>, b: seq<Limb>)
    ensures Val(a + b) == Val(a) + Pow(BASE, |a|) * Val(b)
  {
    AppendPlace(a, b);
    Commuted(Val(b), |a|);
  }

  lemma Commuted(x: int, i: nat)
    ensures Place(x, i) == Pow(BASE, i) * x
  {
    PlaceIs(x, i);
  }

  lemma ValSplit(a: seq<Limb>, i: nat)
    requires i <= |a|
    ensures Val(a) == Val(a[..i]) + Pow(BASE, i) * Val(a[i..])
  {
    assert a[..i] + a[i..] == a;
    ValAppend(a[..i], a[i..]);
  }

  lemma {:induction false} ValBound(a: seq<Limb>)
    ensures Val(a) < Pow(BASE, |a|)
  {
    if a != [] {
      var n := |a| - 1;
      ValBound(a[..n]);
      PlaceIs(a[n], n);
      var p, x: int := Pow(BASE, n), a[n];
      MulLessEq(p, x + 1, BASE);
      Distribute(p, x, 1);
    }
  }

  lemma ValTop(a: seq<Limb>)
    requires a != [] && Normal(a)
    ensures Val(a) >= Pow(BASE, |a| - 1) > 0
  {
    PowPositive(BASE, |a| - 1);
    PlaceIs(a[|a| - 1], |a| - 1);
    MulLessEq(Pow(BASE, |a| - 1), 1, a[|a| - 1]);
  }

  /** A number's limbs, without zeros on top. */
  function FromNat(n: nat): (a: seq<Limb>)
    ensures n != 0 ==> a != []
  {
    if n == 0 then [] else [n % BASE] + FromNat(n / BASE)
  }

  lemma {:induction false} FromNatIs(n: nat)
    ensures Val(FromNat(n)) == n && Normal(FromNat(n))
  {
    if n != 0 {
      var q, r := n / BASE, n % BASE;
      FromNatIs(q);
      ValAppend([r], FromNat(q));
      ValSnoc([], r);
      assert [] + [r] == [r];
      assert Pow(BASE, 0) == 1 && Pow(BASE, 1) == BASE;
    }
  }

  lemma SameLength(a: seq<Limb>, b: seq<Limb>)
    requires Normal(a) && Normal(b) && Val(a) == Val(b)
    ensures |a| == |b|
  {
    ValBound(a);
    ValBound(b);
    if |a| < |b| {
      ValTop(b);
      PowMonotone(BASE, |a|, |b| - 1);
    }
    if |b| < |a| {
      ValTop(a);
      PowMonotone(BASE, |b|, |a| - 1);
    }
  }

  /** The longer number is the larger. */
  lemma LongerIsMore(s: seq<Limb>, r: seq<Limb>)
    requires |s| < |r| ==> Normal(r)
    ensures |s| < |r| ==> Val(s) < Val(r)
  {
    if |s| < |r| {
      ValBound(s);
      ValTop(r);
      PowMonotone(BASE, |s|, |r| - 1);
    }
  }

  /** How many limbs a number takes. */
  function Length(v: nat): nat {
    |FromNat(v)|
  }

  lemma LengthIs(a: seq<Limb>)
    requires Normal(a)
    ensures |a| == Length(Val(a))
  {
    FromNatIs(Val(a));
    SameLength(a, FromNat(Val(a)));
  }

  lemma LengthMonotone(v: nat, w: nat)
    requires v <= w
    ensures Length(v) <= Length(w)
  {
    FromNatIs(v);
    FromNatIs(w);
    if Length(v) > Length(w) { LongerIsMore(FromNat(w), FromNat(v)); }
  }

  lemma LengthBelow(v: nat, n: nat)
    requires v < Pow(BASE, n)
    ensures Length(v) <= n
  {
    FromNatIs(v);
    if Length(v) > n {
      ValTop(FromNat(v));
      PowMonotone(BASE, n, Length(v) - 1);
    }
  }

  lemma LengthAtLeast(v: nat, n: nat)
    requires v >= Pow(BASE, n)
    ensures Length(v) > n
  {
    FromNatIs(v);
    ValBound(FromNat(v));
    if Length(v) <= n { PowMonotone(BASE, Length(v), n); }
  }

  lemma TopTwo(a: seq<Limb>)
    requires |a| >= 2
    ensures var n := |a|;
      && Val(a) == (a[n - 1] * BASE + a[n - 2]) * Pow(BASE, n - 2) + Val(a[..n - 2])
      && Val(a[..n - 2]) < Pow(BASE, n - 2)
  {
    hide Val, Place, Pow;
    var n := |a|;
    var x: int, y: int := a[n - 1], a[n - 2];
    assert a[..n - 1 + 1] == a;
    PrefixPlace(a, n - 2);
    PrefixPlace(a, n - 1);
    ValBound(a[..n - 2]);
    PlaceUp(x, n - 2);
    PlaceAdd(x * BASE, y, n - 2);
    PlaceIs(x * BASE + y, n - 2);
  }

  // Leading zeros.

  /** Leading zeros of a non-zero limb. */
  function Clz(x: Limb): (c: nat)
    requires x > 0
    decreases BASE - x
  {
    if x >= TOP_BIT then 0 else 1 + Clz(2 * x)
  }

  const TOP_BIT: nat := 0x8000_0000_0000_0000

  lemma DoubleShift(x: nat, c: nat)
    ensures (2 * x) * Pow(2, c) == x * Pow(2, c + 1)
  {}

  lemma ShiftedOut(x: nat, c: nat)
    requires x > 0 && c >= 64
    ensures x * Pow(2, c) >= BASE
  {
    BaseIsTwoTo64();
    PowMonotone(2, 64, c);
    MulLessEq(Pow(2, c), 1, x);
  }

  lemma {:induction false} ClzNormalizes(x: Limb)
    requires x > 0
    ensures TOP_BIT <= x * Pow(2, Clz(x)) < BASE
    ensures Clz(x) < 64
    decreases BASE - x
  {
    if x < TOP_BIT {
      ClzNormalizes(2 * x);
      DoubleShift(x, Clz(2 * x));
    } else {
      assert Pow(2, 0) == 1;
    }
    if Clz(x) >= 64 { ShiftedOut(x, Clz(x)); }
  }

  lemma TopBitIsTwoTo63()
    ensures Pow(2, 63) == TOP_BIT
  {
    BaseIsTwoTo64();
  }

  lemma ShiftIsLimb(shift: nat)
    requires shift < 64
    ensures 0 < Pow(2, shift) < BASE
  {
    BaseIsTwoTo64();
    PowPositive(2, shift);
    PowStrict(2, shift, 64);
  }
}
