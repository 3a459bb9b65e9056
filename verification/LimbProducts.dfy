/** Products and multiply-and-add on limb arrays, with the effect on the whole numbers. */
module LimbProducts {
  import opened Powers
  import opened Limbs
  import opened LimbOps
  import opened LimbDifference

  /** `addc_1` in place from place `at` on. */
  method AddAt(dp: array<Limb>, at: nat, n: nat, y: Limb) returns (cf: nat)
    requires at < n <= dp.Length
    modifies dp
    ensures cf <= 1 && Val(dp[..n]) + Place(cf, n) == old(Val(dp[..n])) + Place(y, at)
    ensures forall k | n <= k < dp.Length :: dp[k] == old(dp[k])
  {
    hide Val, Place, Pow;
    ghost var low, high := dp[..at], Val(dp[at..n]);
    ValRange(dp, at, n);
    cf := Addc1(dp, dp, at, n - at, y, 0);
    assert dp[..at] == low;
    ValRange(dp, at, n);
    PlaceSum(high, y, Val(dp[at..n]), cf, at, n);
  }

  lemma PlaceSum(t: int, y: int, v: int, cf: int, at: nat, n: nat)
    requires at <= n && v + Place(cf, n - at) == t + y
    ensures Place(v, at) + Place(cf, n) == Place(t, at) + Place(y, at)
  {
    PlaceAdd(v, Place(cf, n - at), at);
    PlaceAdd(t, y, at);
    PlacePlace(cf, n - at, at);
  }

  /** `subc_1` in place from place `at` on. */
  method SubAt(dp: array<Limb>, at: nat, n: nat, y: Limb) returns (cf: nat)
    requires at < n <= dp.Length
    modifies dp
    ensures cf <= 1 && Val(dp[..n]) - Place(cf, n) == old(Val(dp[..n])) - Place(y, at)
    ensures forall k | n <= k < dp.Length :: dp[k] == old(dp[k])
  {
    hide Val, Place, Pow;
    ghost var low, high := dp[..at], Val(dp[at..n]);
    ValRange(dp, at, n);
    cf := Subc1(dp, dp, at, n - at, y, 0);
    assert dp[..at] == low;
    ValRange(dp, at, n);
    PlaceDifference(high, y, Val(dp[at..n]), cf, at, n);
  }

  lemma PlaceDifference(t: int, y: int, v: int, cf: int, at: nat, n: nat)
    requires at <= n && v - Place(cf, n - at) == t - y
    ensures Place(v, at) - Place(cf, n) == Place(t, at) - Place(y, at)
  {
    PlaceSum(v, y, t, cf, at, n);
  }

  /** `mul_1` from place m on, above limbs already there. */
  method MulUp(dp: array<Limb>, lp: array<Limb>, m: nat, n: nat, ml: Limb) returns (cf: Limb)
    requires m <= n <= dp.Length && n <= lp.Length
    modifies dp
    ensures Val(dp[..n]) + Place(cf, n) == old(Val(dp[..m])) + Place(old(Val(lp[m..n])) * ml, m)
    ensures forall k | n <= k < dp.Length :: dp[k] == old(dp[k])
  {
    ghost var low, t := dp[..m], Val(lp[m..n]) * ml;
    cf := Mul1(dp, lp, m, n - m, ml);
    assert dp[..m] == low;
    ValRange(dp, m, n);
    PlaceSum(t, 0, Val(dp[m..n]), cf, m, n);
    PlaceIs(0, m);
  }

  /** `addmul_1` on the low m limbs of d. */
  method AddMulLow(dp: array<Limb>, lp: array<Limb>, m: nat, d: nat, ml: Limb) returns (cf: Limb)
    requires m <= d <= dp.Length && m <= lp.Length
    modifies dp
    ensures Val(dp[..d]) + Place(cf, m) == old(Val(dp[..d])) + old(Val(lp[..m])) * ml
    ensures forall k | m <= k < dp.Length :: dp[k] == old(dp[k])
  {
    ghost var high := dp[m..d];
    ValRange(dp, m, d);
    assert dp[0..m] == dp[..m];
    cf := AddMul1(dp, 0, lp, m, ml);
    assert dp[0..m] == dp[..m] && dp[m..d] == high;
    ValRange(dp, m, d);
  }

  /** `submul_1` on the low m limbs of d. */
  method SubMulLow(dp: array<Limb>, lp: array<Limb>, m: nat, d: nat, ml: Limb) returns (cf: Limb)
    requires m <= d <= dp.Length && m <= lp.Length
    modifies dp
    ensures Val(dp[..d]) - Place(cf, m) == old(Val(dp[..d])) - old(Val(lp[..m])) * ml
    ensures forall k | m <= k < dp.Length :: dp[k] == old(dp[k])
  {
    ghost var high := dp[m..d];
    ValRange(dp, m, d);
    cf := SubMul1(dp, lp, m, ml);
    assert dp[m..d] == high;
    ValRange(dp, m, d);
  }

  lemma SplitTimes(lp: array<Limb>, m: nat, n: nat, ml: int)
    requires m <= n <= lp.Length
    ensures Val(lp[..n]) * ml == Val(lp[..m]) * ml + Place(Val(lp[m..n]) * ml, m)
  {
    ValRange(lp, m, n);
    var h: int := Val(lp[m..n]);
    TimesPlace(ml, h, m);
    Distribute(ml, Val(lp[..m]), Place(h, m));
  }

  /** A product by one limb has at most one limb more, and is not shorter. */
  lemma ProductBounds(s: seq<Limb>, y: Limb)
    requires s != [] && Normal(s) && y != 0
    ensures Pow(BASE, |s| - 1) <= Val(s) * y && Val(s) * y <= Pow(BASE, |s| + 1) - Pow(BASE, |s|)
  {
    ValTop(s);
    ValBound(s);
    MulLessEq(Val(s), 1, y);
    MulLessEq(Val(s), y, BASE - 1);
    MulLessEq(BASE - 1, Val(s), Pow(BASE, |s|));
  }

  /** A top limb that a number's size leaves room for. */
  lemma CarryFits(v: nat, cf: nat, n: nat, t: int)
    requires v + Place(cf, n) == t && t < Pow(BASE, n + 1)
    ensures cf < BASE
  {
    if cf >= BASE {
      Commuted(cf, n);
      MulLessEq(Pow(BASE, n), BASE, cf);
    }
  }

  function Max(a: nat, b: nat): nat {
    if a < b then b else a
  }

  /** The limbs of dp + lp * ml and the carry from them. */
  method AddProductLimbs(dp: array<Limb>, d: nat, lp: array<Limb>, l: nat, ml: Limb) returns (cf: nat)
    requires d <= dp.Length && l <= dp.Length && l <= lp.Length && (dp == lp ==> d == l)
    modifies dp
    ensures Val(dp[..Max(l, d)]) + Place(cf, Max(l, d)) == old(Val(dp[..d])) + old(Val(lp[..l])) * ml
  {
    if l > d {
      SplitTimes(lp, d, l, ml);
      cf := AddMulLow(dp, lp, d, d, ml);
      cf := AddProductAbove(dp, d, lp, l, ml, cf);
    } else {
      cf := AddMulLow(dp, lp, l, d, ml);
      if l < d { cf := AddAt(dp, l, d, cf); }
    }
  }

  /** The limbs of lp above those of dp. */
  method AddProductAbove(dp: array<Limb>, d: nat, lp: array<Limb>, l: nat, ml: Limb, c: Limb) returns (cf: nat)
    requires d < l <= dp.Length && l <= lp.Length && dp != lp
    modifies dp
    ensures Val(dp[..l]) + Place(cf, l) == old(Val(dp[..d])) + Place(c, d) + Place(Val(lp[d..l]) * ml, d)
  {
    var cf2 := MulUp(dp, lp, d, l, ml);
    cf := AddAt(dp, d, l, c);
    PlaceAdd(cf, cf2, l);
    cf := cf2 + cf;
  }

  /** Adds the product of a magnitude by a limb: dp := dp + lp * ml, in place. */
  method AddProduct(dp: array<Limb>, d: nat, lp: array<Limb>, l: nat, ml: Limb) returns (len: nat)
    requires 1 <= d < dp.Length && 1 <= l < dp.Length && l <= lp.Length && (dp == lp ==> d == l)
    requires dp[d - 1] != 0 && lp[l - 1] != 0 && ml != 0
    modifies dp
    ensures len <= dp.Length && Val(dp[..len]) == old(Val(dp[..d])) + old(Val(lp[..l])) * ml
    ensures Normal(dp[..len])
  {
    var n := Max(l, d);
    SumFits(dp[..d], lp[..l], ml, n);
    var cf := AddProductLimbs(dp, d, lp, l, ml);
    len := FinishSum(dp, n, cf);
  }

  /** Writes the carry limb, which counts if it is not zero. */
  method StoreCarry(dp: array<Limb>, n: nat, cf: nat) returns (len: nat)
    requires n < dp.Length && Val(dp[..n]) + Place(cf, n) < Pow(BASE, n + 1)
    modifies dp
    ensures len == (if cf != 0 then n + 1 else n) && (cf != 0 ==> dp[n] != 0)
    ensures Val(dp[..len]) == old(Val(dp[..n])) + Place(cf, n)
  {
    CarryFits(Val(dp[..n]), cf, n, Val(dp[..n]) + Place(cf, n));
    ghost var low := dp[..n];
    StoreTop(dp, n, cf);
    assert dp[..n] == low;
    len := n + (if cf != 0 then 1 else 0);
    if cf == 0 { PlaceIs(0, n); }
  }

  method FinishSum(dp: array<Limb>, n: nat, cf: nat) returns (len: nat)
    requires 1 <= n < dp.Length
    requires Pow(BASE, n - 1) <= Val(dp[..n]) + Place(cf, n) < Pow(BASE, n + 1)
    modifies dp
    ensures n <= len <= n + 1 && Val(dp[..len]) == old(Val(dp[..n])) + Place(cf, n) && Normal(dp[..len])
  {
    len := StoreCarry(dp, n, cf);
    NormalIff(dp[..len]);
  }

  lemma SumFits(s: seq<Limb>, r: seq<Limb>, ml: Limb, n: nat)
    requires s != [] && r != [] && Normal(s) && Normal(r) && ml != 0 && n == Max(|r|, |s|)
    ensures Pow(BASE, n - 1) <= Val(s) + Val(r) * ml < Pow(BASE, n + 1)
  {
    ProductBounds(r, ml);
    ValTop(s);
    ValBound(s);
    Longer(|r|, n);
    Longer(|s|, n);
  }

  lemma Longer(k: nat, n: nat)
    requires k <= n
    ensures Pow(BASE, k) <= Pow(BASE, n)
    ensures Pow(BASE, k + 1) - Pow(BASE, k) <= Pow(BASE, n + 1) - Pow(BASE, n)
  {
    PowMonotone(BASE, k, n);
    MulLessEq(BASE - 1, Pow(BASE, k), Pow(BASE, n));
  }

  // Subtracting a product, where the result may change sign.

  /** 64-bit wrap-around. */
  function Wrap(x: int): Limb {
    x % BASE
  }

  /** `cf += bi_negate_n(dp, dp, n) - 1`, wrapping; carry is what the sum would be without wrapping. */
  method NegateWithCarry(dp: array<Limb>, n: nat, c: Limb) returns (cf: Limb, ghost carry: int)
    requires n <= dp.Length
    modifies dp
    ensures cf == Wrap(carry) && carry == c - (if old(Val(dp[..n])) == 0 then 0 else 1)
    ensures Val(dp[..n]) + Place(carry, n) == Place(c, n) - old(Val(dp[..n]))
    ensures forall k | n <= k < dp.Length :: dp[k] == old(dp[k])
  {
    var zero := NegateN(dp, dp, n);
    carry := c - (if zero then 0 else 1);
    cf := Wrap(c + (if zero then 1 else 0) - 1);
    PlaceIs(1, n);
    PlaceAdd(carry, 1, n);
  }

  /** Whichever magnitude is larger, as dp has room for the product: dp := |dp - lp * ml|. */
  method SubProductWithin(dp: array<Limb>, d: nat, lp: array<Limb>, l: nat, ml: Limb)
      returns (len: nat, flipped: bool)
    requires l <= d < dp.Length && l <= lp.Length
    modifies dp
    ensures len <= dp.Length && Normal(dp[..len])
    ensures ConditionalNegate(flipped, Val(dp[..len])) == old(Val(dp[..d])) - old(Val(lp[..l])) * ml
  {
    var cf: Limb := SubMulLow(dp, lp, l, d, ml);
    if d != l { cf := SubAt(dp, l, d, cf); }
    flipped := cf != 0;
    if flipped {
      cf, len := NegateAndStore(dp, d, cf);
    } else {
      PlaceIs(0, d);
      len := d;
    }
    len := Normalize(dp, len);
  }

  method NegateAndStore(dp: array<Limb>, d: nat, c: Limb) returns (cf: Limb, len: nat)
    requires d < dp.Length && c != 0
    modifies dp
    ensures len == d + 1 && Val(dp[..len]) == Place(c, d) - old(Val(dp[..d]))
  {
    hide Val, Place, Pow;
    ghost var carry;
    cf, carry := NegateWithCarry(dp, d, c);
    StoreTop(dp, d, cf);
    len := d + 1;
  }

  lemma LowProduct(s: seq<Limb>, ml: Limb)
    ensures Val(s) * ml < Place(BASE - 1, |s|)
  {
    ValBound(s);
    PlaceIs(BASE - 1, |s|);
    MulLessEq(Val(s), ml, BASE - 1);
    MulLess(BASE - 1, Val(s), Pow(BASE, |s|));
  }

  /**
   Line 544: where x less the product of as many limbs is negated, the wrapped carry is the
   largest limb exactly when the true one is -1; adding one then makes it right.
   */
  lemma MaxMeansMinusOne(v: nat, c: Limb, x: nat, s: seq<Limb>, ml: Limb, carry: int)
    requires v - Place(c, |s|) == x - Val(s) * ml && carry == c - (if v == 0 then 0 else 1)
    ensures Wrap(carry) == BASE - 1 <==> carry == -1
    ensures var up := if Wrap(carry) == BASE - 1 then 1 else 0;
      Wrap(Wrap(carry) + up) == carry + up
  {
    hide Val, Place;
    LowProduct(s, ml);
    BelowMax(v, c, |s|, x, Val(s) * ml);
  }

  lemma BelowMax(v: nat, c: Limb, d: nat, x: nat, t: int)
    requires v - Place(c, d) == x - t && t < Place(BASE - 1, d)
    ensures v == 0 ==> c < BASE - 1
  {}

  /** lp is longer: dp := lp * ml - dp, the low part negated first. */
  method SubProductBeyond(dp: array<Limb>, d: nat, lp: array<Limb>, l: nat, ml: Limb) returns (len: nat)
    requires 1 <= d < l < dp.Length && l <= lp.Length && dp != lp
    requires dp[d - 1] != 0 && lp[l - 1] != 0 && ml != 0
    modifies dp
    ensures len <= dp.Length && Normal(dp[..len])
    ensures Val(dp[..len]) == Val(lp[..l]) * ml - old(Val(dp[..d]))
  {
    DifferenceFits(dp[..d], lp[..l], ml);
    SplitTimes(lp, d, l, ml);
    var c, cf2;
    ghost var carry;
    c, cf2, carry := NegateLow(dp, d, lp, ml);
    len := AddHigh(dp, d, lp, l, ml, c, cf2, carry);
    len := Normalize(dp, len);
  }

  /** The low limbs of lp * ml - dp; a carry of -1 is put off. */
  method NegateLow(dp: array<Limb>, d: nat, lp: array<Limb>, ml: Limb) returns (c: Limb, cf2: bool, ghost carry: int)
    requires d <= dp.Length && d <= lp.Length && dp != lp
    modifies dp
    ensures Val(dp[..d]) + Place(carry, d) == Val(lp[..d]) * ml - old(Val(dp[..d]))
    ensures c == carry + (if cf2 then 1 else 0)
  {
    ghost var x := Val(dp[..d]);
    var cf: Limb := SubMulLow(dp, lp, d, d, ml);
    ghost var v, before := Val(dp[..d]), cf;
    cf, carry := NegateWithCarry(dp, d, cf);
    MaxMeansMinusOne(v, before, x, lp[..d], ml, carry);
    cf2 := cf == BASE - 1;
    c := Wrap(cf + (if cf2 then 1 else 0));
  }

  /** The limbs above dp's, and the borrow that was left out of the carry. */
  method AddHigh(dp: array<Limb>, d: nat, lp: array<Limb>, l: nat, ml: Limb, c: Limb, cf2: bool, ghost carry: int)
      returns (len: nat)
    requires d < l < dp.Length && l <= lp.Length && dp != lp && c == carry + (if cf2 then 1 else 0)
    requires var t := Val(dp[..d]) + Place(carry, d) + Place(Val(lp[d..l]) * ml, d);
      0 <= t && t + Pow(BASE, d) < Pow(BASE, l + 1)
    modifies dp
    ensures len <= dp.Length
    ensures Val(dp[..len]) == old(Val(dp[..d])) + Place(carry, d) + Place(Val(lp[d..l]) * ml, d)
  {
    PlaceAdd(carry, if cf2 then 1 else 0, d);
    PlaceIs(1, d);
    PlaceIs(0, d);
    var cf := AddProductAbove(dp, d, lp, l, ml, c);
    len := StoreCarry(dp, l, cf);
    if cf2 {
      ghost var t := Val(dp[..len]) - Place(1, d);
      var borrow := SubAt(dp, d, len, 1);
      NoBorrow(dp[..len], borrow, t);
    }
  }

  lemma DifferenceFits(s: seq<Limb>, r: seq<Limb>, ml: Limb)
    requires s != [] && |s| < |r| && Normal(s) && Normal(r) && ml != 0
    ensures 0 < Val(r) * ml - Val(s) && Val(r) * ml - Val(s) + Pow(BASE, |s|) < Pow(BASE, |r| + 1)
  {
    ProductBounds(r, ml);
    ValTop(s);
    ValBound(s);
    PowMonotone(BASE, |s|, |r| - 1);
    PowStrict(BASE, |r| - 1, |r|);
  }
}
