/** Products of big integers, and adding or subtracting them in place. */
module BigIntegerProducts {
  import opened Powers
  import opened Limbs
  import opened LimbOps
  import opened LimbDifference
  import opened LimbProducts
  import opened BigIntegers

  lemma SignedProduct(a: bool, x: nat, b: bool, y: nat)
    ensures ConditionalNegate(a, x) * ConditionalNegate(b, y) == ConditionalNegate(a != b, x * y)
  {
    NegateProduct(x, y);
    NegateProduct(y, x);
    NegateProduct(ConditionalNegate(b, y), x);
  }

  /** `copy_n_restrict` into scratch memory. */
  method Copied(a: array<Limb>, n: nat) returns (r: array<Limb>)
    requires n <= a.Length
    ensures fresh(r) && r.Length == n && r[..n] == a[..n]
  {
    r := new Limb[n];
    CopyLimbs(r, a, n);
  }

  lemma ProductLength(s: seq<Limb>, r: seq<Limb>)
    requires s != [] && r != [] && Normal(s) && Normal(r)
    ensures Val(s) * Val(r) >= Pow(BASE, |s| + |r| - 2)
  {
    ValTop(s);
    ValTop(r);
    PowAdd(BASE, |s| - 1, |r| - 1);
    MulLessEq(Pow(BASE, |s| - 1), Pow(BASE, |r| - 1), Val(r));
    MulLessEq(Val(r), Pow(BASE, |s| - 1), Val(s));
  }

  /** The product into an array apart from both, without the top limb if that is zero. */
  method Product(dp: array<Limb>, lp: array<Limb>, l: nat, rp: array<Limb>, r: nat) returns (len: nat)
    requires 1 <= r <= l <= lp.Length && r <= rp.Length && l + r <= dp.Length
    requires dp != lp && dp != rp && (lp == rp ==> l == r) && lp[l - 1] != 0 && rp[r - 1] != 0
    modifies dp
    ensures 0 < len <= l + r && Val(dp[..len]) == Val(lp[..l]) * Val(rp[..r]) && Normal(dp[..len])
  {
    hide Val, Place, Pow;
    ProductLength(lp[..l], rp[..r]);
    if lp == rp {
      Sqr(dp, lp, l);
    } else {
      MulS(dp, lp, l, rp, r);
    }
    len := l + r - (if dp[l + r - 1] == 0 then 1 else 0);
    DropZero(dp, l + r);
    NormalIff(dp[..len]);
  }

  /** `mul_1` and its carry limb. */
  method ProductByLimb(dp: array<Limb>, lp: array<Limb>, l: nat, y: Limb) returns (len: nat, cf: Limb)
    requires 1 <= l < dp.Length && l <= lp.Length && lp[l - 1] != 0 && y != 0
    modifies dp
    ensures len == (if cf != 0 then l + 1 else l) && (cf != 0 <==> old(Val(lp[..l])) * y >= Pow(BASE, l))
    ensures Val(dp[..len]) == old(Val(lp[..l])) * y && Normal(dp[..len])
  {
    hide Val, Place, Pow;
    ProductBounds(lp[..l], y);
    assert lp[0..l] == lp[..l];
    cf := Mul1(dp, lp, 0, l, y);
    assert dp[0..l] == dp[..l];
    ValBound(dp[..l]);
    NothingAbove(cf, l);
    len := PushTop(dp, l, cf);
    NormalIff(dp[..len]);
  }

  /** The product of the magnitudes, of two limbs or more each, into dst's array or a new one. */
  method MulLong(dst: BigInteger, lhs: BigInteger, rhs: BigInteger) returns (len: nat)
    requires dst.Valid() && lhs.Valid() && rhs.Valid() && Apart(dst, lhs) && Apart(dst, rhs) && Apart(lhs, rhs)
    requires Abs(lhs.ssize) >= Abs(rhs.ssize) >= 2
    modifies dst`limbs, dst.limbs
    ensures len <= dst.limbs.Length && (dst.limbs == old(dst.limbs) || fresh(dst.limbs))
    ensures Val(dst.limbs[..len]) == old(Val(lhs.Digits())) * old(Val(rhs.Digits())) && Normal(dst.limbs[..len])
  {
    hide Val;
    var lusize, rusize := Abs(lhs.ssize), Abs(rhs.ssize);
    var dusize := lusize + rusize;
    var dp, lp, rp := dst.limbs, lhs.limbs, rhs.limbs;
    ghost var s, r := lp[..lusize], rp[..rusize];
    if dp.Length < dusize {
      dp := new Limb[dusize];
    } else if dp == lp {
      lp := Copied(dp, lusize);
      if dp == rp { rp := lp; }
    } else if dp == rp {
      rp := Copied(dp, rusize);
    }
    assert lp[..lusize] == s && rp[..rusize] == r;
    len := Product(dp, lp, lusize, rp, rusize);
    dst.limbs := dp;
  }

  /** The product of a magnitude by a limb, with room for its carry. */
  method PutShort(dst: BigInteger, lhs: BigInteger, y: Limb) returns (len: nat, cf: Limb)
    requires dst.Valid() && lhs.Valid() && Apart(dst, lhs) && lhs.ssize != 0 && y != 0
    modifies dst`limbs, dst.limbs
    ensures dst.limbs == old(dst.limbs) || fresh(dst.limbs)
    ensures len == (if cf != 0 then Abs(lhs.ssize) + 1 else Abs(lhs.ssize)) <= dst.limbs.Length
    ensures cf != 0 <==> old(Val(lhs.Digits())) * y >= Pow(BASE, Abs(lhs.ssize))
    ensures Val(dst.limbs[..len]) == old(Val(lhs.Digits())) * y && Normal(dst.limbs[..len])
  {
    dst.Reserve(Abs(lhs.ssize) + 1);
    len, cf := ProductByLimb(dst.limbs, lhs.limbs, Abs(lhs.ssize), y);
  }

  /** The product of the magnitudes, rhs one limb. */
  method MulShort(dst: BigInteger, lhs: BigInteger, rhs: BigInteger) returns (len: nat)
    requires dst.Valid() && lhs.Valid() && rhs.Valid() && Apart(dst, lhs) && Apart(dst, rhs)
    requires Abs(lhs.ssize) >= Abs(rhs.ssize) == 1
    modifies dst`limbs, dst.limbs
    ensures len <= dst.limbs.Length && (dst.limbs == old(dst.limbs) || fresh(dst.limbs))
    ensures Val(dst.limbs[..len]) == old(Val(lhs.Digits())) * old(Val(rhs.Digits())) && Normal(dst.limbs[..len])
  {
    OneLimbVal(rhs.Digits());
    var cf;
    len, cf := PutShort(dst, lhs, rhs.limbs[0]);
  }

  /** `_mul_impl`, the longer operand first. */
  method MulOrdered(dst: BigInteger, lhs: BigInteger, rhs: BigInteger)
    requires dst.Valid() && lhs.Valid() && rhs.Valid() && Apart(dst, lhs) && Apart(dst, rhs) && Apart(lhs, rhs)
    requires Abs(lhs.ssize) >= Abs(rhs.ssize)
    modifies dst, dst.limbs
    ensures dst.Valid() && dst.Value() == old(lhs.Value() * rhs.Value())
    ensures dst.limbs == old(dst.limbs) || fresh(dst.limbs)
  {
    var negative := (lhs.ssize < 0) != (rhs.ssize < 0);
    ghost var x, y := Val(lhs.Digits()), Val(rhs.Digits());
    SignedProduct(lhs.ssize < 0, x, rhs.ssize < 0, y);
    ghost var product := x * y;
    assert rhs.ssize == 0 ==> product == 0;
    hide Val;
    NoLimbs();
    var len := 0;
    if Abs(rhs.ssize) == 0 {
      dst.SetSize(false, 0);
      return;
    } else if Abs(rhs.ssize) == 1 {
      len := MulShort(dst, lhs, rhs);
    } else {
      len := MulLong(dst, lhs, rhs);
    }
    dst.SetSize(negative, len);
  }

  lemma Commute(x: int, y: int)
    ensures x * y == y * x
  {}

  /** `_mul_impl`: dst may be either operand or both. */
  method Mul(dst: BigInteger, lhs: BigInteger, rhs: BigInteger)
    requires dst.Valid() && lhs.Valid() && rhs.Valid() && Apart(dst, lhs) && Apart(dst, rhs) && Apart(lhs, rhs)
    modifies dst, dst.limbs
    ensures dst.Valid() && dst.Value() == old(lhs.Value() * rhs.Value())
    ensures dst.limbs == old(dst.limbs) || fresh(dst.limbs)
  {
    Commute(lhs.Value(), rhs.Value());
    if Abs(lhs.ssize) < Abs(rhs.ssize) {
      MulOrdered(dst, rhs, lhs);
    } else {
      MulOrdered(dst, lhs, rhs);
    }
  }

  /** The square of the magnitude, of two limbs or more. */
  method SqrLong(dst: BigInteger, src: BigInteger) returns (len: nat)
    requires dst.Valid() && src.Valid() && Apart(dst, src) && Abs(src.ssize) >= 2
    modifies dst`limbs, dst.limbs
    ensures len <= dst.limbs.Length && (dst.limbs == old(dst.limbs) || fresh(dst.limbs))
    ensures Val(dst.limbs[..len]) == old(Val(src.Digits())) * old(Val(src.Digits())) && Normal(dst.limbs[..len])
  {
    var susize := Abs(src.ssize);
    var dp, sp := dst.limbs, src.limbs;
    ghost var s := sp[..susize];
    if dp.Length < 2 * susize {
      dp := new Limb[2 * susize];
    } else if dp == sp {
      sp := Copied(dp, susize);
    }
    assert sp[..susize] == s;
    len := Product(dp, sp, susize, sp, susize);
    dst.limbs := dp;
  }

  /** `_sqr_impl` */
  method Square(dst: BigInteger, src: BigInteger)
    requires dst.Valid() && src.Valid() && Apart(dst, src)
    modifies dst, dst.limbs
    ensures dst.Valid() && dst.Value() == old(src.Value() * src.Value())
    ensures dst.limbs == old(dst.limbs) || fresh(dst.limbs)
  {
    SignedProduct(src.ssize < 0, Val(src.Digits()), src.ssize < 0, Val(src.Digits()));
    if src.ssize == 0 {
      dst.SetSize(false, 0);
      return;
    }
    var len;
    if Abs(src.ssize) == 1 {
      len := MulShort(dst, src, src);
    } else {
      len := SqrLong(dst, src);
    }
    dst.SetSize(false, len);
  }

  // Multiply and add.

  /** Line 478: a carry limb added to a zero dst makes a negative length shorter instead of longer. */
  ghost predicate LosesCarry(dst: BigInteger, lhs: BigInteger, rhs: Limb)
    requires lhs.Sized()
    reads dst, lhs, lhs.limbs
  {
    dst.ssize == 0 && lhs.ssize < 0 && Val(lhs.Digits()) * rhs >= Pow(BASE, Abs(lhs.ssize))
  }

  /** What is left then: the product's limbs but for as many on top as the length lacks. */
  ghost function LeftOver(product: nat, n: nat, negative: bool): int {
    PowPositive(BASE, n);
    ConditionalNegate(!negative, product % Pow(BASE, n))
  }

  lemma LowLimbsAre(a: seq<Limb>, n: nat)
    requires n <= |a|
    ensures Pow(BASE, n) > 0 && Val(a[..n]) == Val(a) % Pow(BASE, n)
  {
    PowPositive(BASE, n);
    ValSplit(a, n);
    ValBound(a[..n]);
    Commute(Pow(BASE, n), Val(a[n..]));
    DivModIs(Val(a), Pow(BASE, n), Val(a[n..]), Val(a[..n]));
  }

  /** What `_addsubmul_impl` is to leave in dst. */
  ghost function SumWithProduct(d: int, l: int, rhs: int, negative: bool): int {
    d + ConditionalNegate(negative, l * rhs)
  }

  lemma SignedSum(dneg: bool, d: nat, lneg: bool, l: nat, rhs: Limb, negative: bool)
    ensures SumWithProduct(ConditionalNegate(dneg, d), ConditionalNegate(lneg, l), rhs, negative) ==
      ConditionalNegate(dneg, d + ConditionalNegate(negative != (lneg != dneg), l * rhs))
  {
    NegateProduct(rhs, l);
    Commute(rhs, l);
    Commute(rhs, ConditionalNegate(lneg, l));
  }

  /** dst is zero: the product, with its sign, where no carry is lost. */
  method AddSubMulToZero(dst: BigInteger, lhs: BigInteger, rhs: Limb, negative: bool)
    requires dst.Valid() && lhs.Valid() && Apart(dst, lhs) && dst.ssize == 0 && lhs.ssize != 0 && rhs != 0
    modifies dst, dst.limbs
    ensures dst.Sized() && (dst.limbs == old(dst.limbs) || fresh(dst.limbs))
    ensures dst.Value() == SumWithProduct(0, old(lhs.Value()), rhs, negative) <==> !old(LosesCarry(dst, lhs, rhs))
    ensures if old(LosesCarry(dst, lhs, rhs))
      then dst.Value() == old(LeftOver(Val(lhs.Digits()) * rhs, Abs(lhs.ssize) - 1, negative))
      else dst.Valid()
  {
    var lssize, lusize := lhs.ssize, Abs(lhs.ssize);
    ghost var l := Val(lhs.Digits());
    ghost var product: nat := l * rhs;
    var len, cf := PutShort(dst, lhs, rhs);
    var dssize := lssize + (if cf != 0 then 1 else 0);
    dst.SetSize((dssize < 0) != negative, Abs(dssize));
    assert dst.limbs[..len][..lusize - 1] == dst.limbs[..lusize - 1];
    ToZeroIs(lssize < 0, l, rhs, product, cf != 0 && lssize < 0, dst.limbs[..len], lusize - 1, negative, dst.Value());
  }

  lemma ToZeroIs(lneg: bool, l: nat, rhs: Limb, product: nat, lost: bool, a: seq<Limb>, n: nat, negative: bool,
      value: int)
    requires product == l * rhs == Val(a) && (lost ==> lneg && n + 2 == |a| && Normal(a))
    requires lost ==> value == ConditionalNegate(!negative, Val(a[..n]))
    requires !lost ==> value == ConditionalNegate(lneg != negative, product)
    ensures value == SumWithProduct(0, ConditionalNegate(lneg, l), rhs, negative) <==> !lost
    ensures lost ==> value == LeftOver(product, n, negative)
  {
    SignedSum(false, 0, lneg, l, rhs, negative);
    if lost { CarryLost(a, n); }
  }

  /** Without its top two limbs a number is less. */
  lemma CarryLost(a: seq<Limb>, n: nat)
    requires n + 2 == |a| && Normal(a)
    ensures Pow(BASE, n) > 0 && Val(a[..n]) == Val(a) % Pow(BASE, n) < Val(a)
  {
    LowLimbsAre(a, n);
    ValBound(a[..n]);
    ValTop(a);
    PowMonotone(BASE, n, n + 1);
  }

  /** The product of a magnitude by a limb added to another magnitude or subtracted from it. */
  method CombineProduct(dp: array<Limb>, d: nat, lp: array<Limb>, l: nat, rhs: Limb, subtract: bool)
      returns (len: nat, flipped: bool)
    requires 1 <= d < dp.Length && 1 <= l < dp.Length && l <= lp.Length && (dp == lp ==> d == l)
    requires dp[d - 1] != 0 && lp[l - 1] != 0 && rhs != 0
    modifies dp
    ensures len <= dp.Length && Normal(dp[..len])
    ensures ConditionalNegate(flipped, Val(dp[..len])) ==
      old(Val(dp[..d])) + ConditionalNegate(subtract, old(Val(lp[..l])) * rhs)
  {
    flipped := false;
    if !subtract {
      len := AddProduct(dp, d, lp, l, rhs);
    } else if d >= l {
      len, flipped := SubProductWithin(dp, d, lp, l, rhs);
    } else {
      len := SubProductBeyond(dp, d, lp, l, rhs);
      flipped := true;
    }
  }

  /** `_addsubmul_impl` with one limb, on two numbers that are not zero. */
  method AddSubMulNonZero(dst: BigInteger, lhs: BigInteger, rhs: Limb, negative: bool)
    requires dst.Valid() && lhs.Valid() && Apart(dst, lhs) && dst.ssize != 0 && lhs.ssize != 0 && rhs != 0
    modifies dst, dst.limbs
    ensures dst.Valid() && (dst.limbs == old(dst.limbs) || fresh(dst.limbs))
    ensures dst.Value() == SumWithProduct(old(dst.Value()), old(lhs.Value()), rhs, negative)
  {
    hide Val;
    var dneg, dusize, lusize := dst.ssize < 0, Abs(dst.ssize), Abs(lhs.ssize);
    SignedSum(dneg, Val(dst.Digits()), lhs.ssize < 0, Val(lhs.Digits()), rhs, negative);
    dst.Reserve(Max(lusize, dusize) + 1);
    var subtract := negative != ((lhs.ssize < 0) != dneg);
    var len, flipped := CombineProduct(dst.limbs, dusize, lhs.limbs, lusize, rhs, subtract);
    dst.SetSize(dneg != flipped, len);
  }

  /**
   `_addsubmul_impl` with one limb: dst + lhs * rhs, or dst - lhs * rhs, normalized, also where dst
   is lhs; wrong only where dst is zero and a carry is lost.
   */
  method AddSubMulLimb(dst: BigInteger, lhs: BigInteger, rhs: Limb, negative: bool)
    requires dst.Valid() && lhs.Valid() && Apart(dst, lhs)
    modifies dst, dst.limbs
    ensures dst.Sized() && (dst.limbs == old(dst.limbs) || fresh(dst.limbs))
    ensures old(LosesCarry(dst, lhs, rhs)) <==>
      old(dst.Value()) == 0 && old(lhs.Value()) < 0 &&
      Abs(old(lhs.Value())) * rhs >= Pow(BASE, Length(Abs(old(lhs.Value()))))
    ensures var t := if negative then -(old(lhs.Value()) * rhs) else old(lhs.Value()) * rhs;
      dst.Value() == old(dst.Value()) + t <==> !old(LosesCarry(dst, lhs, rhs))
    ensures if old(LosesCarry(dst, lhs, rhs))
      then dst.Value() == old(LeftOver(Val(lhs.Digits()) * rhs, Abs(lhs.ssize) - 1, negative))
      else dst.Valid()
  {
    SignOf(dst);
    SignOf(lhs);
    PowPositive(BASE, Abs(lhs.ssize));
    if lhs.ssize == 0 || rhs == 0 {
      return;
    }
    if dst.ssize == 0 {
      AddSubMulToZero(dst, lhs, rhs, negative);
    } else {
      AddSubMulNonZero(dst, lhs, rhs, negative);
    }
  }

  // Multiply and add, the factor of two limbs or more.

  /** Adds magnitudes, the longer first. */
  method AddLong(dp: array<Limb>, d: nat, tp: array<Limb>, t: nat) returns (len: nat)
    requires 1 <= d < dp.Length && 1 <= t < dp.Length && t <= tp.Length && dp[d - 1] != 0 && tp[t - 1] != 0
    modifies dp
    ensures len <= dp.Length && Normal(dp[..len])
    ensures Val(dp[..len]) == old(Val(dp[..d])) + old(Val(tp[..t]))
  {
    if d < t {
      len := AddMagnitudes(dp, tp, t, dp, d);
    } else {
      len := AddMagnitudes(dp, dp, d, tp, t);
    }
  }

  /** Subtracts the smaller magnitude from the larger. */
  method SubLong(dp: array<Limb>, d: nat, tp: array<Limb>, t: nat)
    requires 1 <= d <= dp.Length && 1 <= t <= dp.Length && t <= tp.Length && dp[d - 1] != 0 && tp[t - 1] != 0
    modifies dp
    ensures Val(dp[..Max(d, t)]) == Abs(old(Val(dp[..d])) - old(Val(tp[..t])))
  {
    LongerIsMore(dp[..d], tp[..t]);
    LongerIsMore(tp[..t], dp[..d]);
    var less := d < t;
    if d == t {
      var ord := ReverseCompare(dp, tp, d);
      less := ord < 0;
    }
    ghost var x: int, y: int := Val(dp[..d]), Val(tp[..t]);
    var cf;
    if less {
      cf := SubcS(dp, tp, t, dp, d, 0);
    } else {
      cf := SubcS(dp, dp, d, tp, t, 0);
    }
    NoBorrow(dp[..Max(d, t)], cf, Abs(x - y));
  }

  /** Line 644: a difference of magnitudes is stored without its sign, at the longer length. */
  predicate TakesDifference(dst: BigInteger, lhs: BigInteger, rhs: BigInteger, negative: bool)
    reads dst, lhs, rhs
  {
    && Abs(lhs.ssize) >= 2 && Abs(rhs.ssize) >= 2 && dst.ssize != 0
    && negative != (((lhs.ssize < 0) != (rhs.ssize < 0)) != (dst.ssize < 0))
  }

  /** The length that is stored with a difference: that of the longer magnitude. */
  ghost function DifferenceLength(dst: BigInteger, lhs: BigInteger, rhs: BigInteger): nat
    requires lhs.Sized() && rhs.Sized()
    reads dst, lhs, rhs, lhs.limbs, rhs.limbs
  {
    Max(Abs(dst.ssize), Length(Val(lhs.Digits()) * Val(rhs.Digits())))
  }

  /** A number that needs no fewer than n limbs. */
  ghost predicate Fills(v: nat, n: nat) {
    n > 0 ==> v >= Pow(BASE, n - 1)
  }

  /** dst := dst + tp, or the difference of the magnitudes. */
  method CombineInto(dst: BigInteger, tp: array<Limb>, t: nat, subtract: bool)
    requires dst.Valid() && dst.ssize != 0 && 1 <= t < dst.limbs.Length && t <= tp.Length && tp[t - 1] != 0
    requires Abs(dst.ssize) < dst.limbs.Length
    modifies dst`ssize, dst.limbs
    ensures dst.Sized()
    ensures var d, x := old(Val(dst.Digits())), old(Val(tp[..t]));
      && dst.Value() == (if subtract then Abs(d - x) else ConditionalNegate(old(dst.ssize) < 0, d + x))
      && (dst.Valid() <==> !subtract || Fills(Abs(d - x), Max(old(Abs(dst.ssize)), t)))
  {
    hide Val, Place, Pow;
    var dp, d := dst.limbs, Abs(dst.ssize);
    if !subtract {
      var len := AddLong(dp, d, tp, t);
      dst.SetSize(dst.ssize < 0, len);
    } else {
      SubLong(dp, d, tp, t);
      dst.SetSize(false, Max(d, t));
      NormalIff(dst.Digits());
    }
  }

  /** The product of the magnitudes in scratch memory. */
  method ScratchProduct(lhs: BigInteger, rhs: BigInteger) returns (tp: array<Limb>, t: nat)
    requires lhs.Valid() && rhs.Valid() && Apart(lhs, rhs) && Abs(lhs.ssize) >= Abs(rhs.ssize) >= 2
    ensures fresh(tp) && 0 < t <= tp.Length == Abs(lhs.ssize) + Abs(rhs.ssize) && tp[t - 1] != 0
    ensures Val(tp[..t]) == Val(lhs.Digits()) * Val(rhs.Digits()) && t == Length(Val(tp[..t]))
  {
    tp := new Limb[Abs(lhs.ssize) + Abs(rhs.ssize)];
    t := Product(tp, lhs.limbs, Abs(lhs.ssize), rhs.limbs, Abs(rhs.ssize));
    LengthIs(tp[..t]);
  }

  /** dst is zero: the product goes into it at once. */
  method PutProduct(dst: BigInteger, lhs: BigInteger, rhs: BigInteger, negative: bool)
    requires dst.Valid() && lhs.Valid() && rhs.Valid() && Apart(dst, lhs) && Apart(dst, rhs) && Apart(lhs, rhs)
    requires Abs(lhs.ssize) >= Abs(rhs.ssize) >= 2 && dst.ssize == 0
    requires Abs(lhs.ssize) + Abs(rhs.ssize) < dst.limbs.Length
    modifies dst`ssize, dst.limbs
    ensures dst.Valid()
    ensures dst.Value() == ConditionalNegate(negative, old(Val(lhs.Digits()) * Val(rhs.Digits())))
  {
    var len := Product(dst.limbs, lhs.limbs, Abs(lhs.ssize), rhs.limbs, Abs(rhs.ssize));
    dst.SetSize(negative, len);
  }

  /** The product of the magnitudes, added to dst's or subtracted from it. */
  method AddSubMulMagnitudes(dst: BigInteger, lhs: BigInteger, rhs: BigInteger, subtract: bool, ghost x: int)
    requires dst.Valid() && lhs.Valid() && rhs.Valid() && Apart(dst, lhs) && Apart(dst, rhs) && Apart(lhs, rhs)
    requires Abs(lhs.ssize) >= Abs(rhs.ssize) >= 2
    requires Max(Abs(lhs.ssize) + Abs(rhs.ssize), Abs(dst.ssize)) < dst.limbs.Length
    requires x == Val(lhs.Digits()) * Val(rhs.Digits())
    modifies dst`ssize, dst.limbs
    ensures dst.Sized()
    ensures var d := old(Val(dst.Digits()));
      && dst.Value() == (if old(dst.ssize) == 0 then ConditionalNegate(subtract, x)
                         else if subtract then Abs(d - x) else ConditionalNegate(old(dst.ssize) < 0, d + x))
      && (dst.Valid() <==> (old(dst.ssize) != 0 && subtract ==>
            Fills(Abs(d - x), old(DifferenceLength(dst, lhs, rhs)))))
  {
    hide Val;
    if dst.ssize == 0 {
      PutProduct(dst, lhs, rhs, subtract);
    } else {
      var tp, t := ScratchProduct(lhs, rhs);
      CombineInto(dst, tp, t, subtract);
    }
  }

  /** The value that the signs and magnitudes stand for. */
  lemma SignedSumLong(dst: BigInteger, lhs: BigInteger, rhs: BigInteger, negative: bool) returns (x: int)
    requires dst.Sized() && lhs.Sized() && rhs.Sized()
    ensures x == Val(lhs.Digits()) * Val(rhs.Digits())
    ensures var subtract := negative != (((lhs.ssize < 0) != (rhs.ssize < 0)) != (dst.ssize < 0));
      dst.Value() + ConditionalNegate(negative, lhs.Value() * rhs.Value()) ==
        ConditionalNegate(dst.ssize < 0, Val(dst.Digits()) + ConditionalNegate(subtract, x))
  {
    x := Val(lhs.Digits()) * Val(rhs.Digits());
    SignedProduct(lhs.ssize < 0, Val(lhs.Digits()), rhs.ssize < 0, Val(rhs.Digits()));
  }

  /**
   What dst is left with, where v is what it should be: something else if a carry is lost, and of a
   difference the magnitude, with a length n that may be too long.
   */
  ghost predicate Leaves(v: int, lost: bool, difference: bool, n: nat, value: int, valid: bool) {
    if lost then value != v
    else value == (if difference then Abs(v) else v) && (valid <==> (difference ==> Fills(Abs(v), n)))
  }

  method AddSubMulRoomy(dst: BigInteger, lhs: BigInteger, rhs: BigInteger, negative: bool)
    requires dst.Valid() && lhs.Valid() && rhs.Valid() && Apart(dst, lhs) && Apart(dst, rhs) && Apart(lhs, rhs)
    requires Abs(lhs.ssize) >= Abs(rhs.ssize) >= 2
    requires Max(Abs(lhs.ssize) + Abs(rhs.ssize), Abs(dst.ssize)) < dst.limbs.Length
    modifies dst`ssize, dst.limbs
    ensures dst.Sized()
    ensures Leaves(old(dst.Value() + ConditionalNegate(negative, lhs.Value() * rhs.Value())), false,
                   old(TakesDifference(dst, lhs, rhs, negative)), old(DifferenceLength(dst, lhs, rhs)),
                   dst.Value(), dst.Valid())
  {
    hide Place, Pow;
    ghost var x := SignedSumLong(dst, lhs, rhs, negative);
    AddSubMulMagnitudes(dst, lhs, rhs, negative != (((lhs.ssize < 0) != (rhs.ssize < 0)) != (dst.ssize < 0)), x);
  }

  /** `_addsubmul_impl` where both factors have two limbs or more, the longer first. */
  method AddSubMulLong(dst: BigInteger, lhs: BigInteger, rhs: BigInteger, negative: bool)
    requires dst.Valid() && lhs.Valid() && rhs.Valid() && Apart(dst, lhs) && Apart(dst, rhs) && Apart(lhs, rhs)
    requires Abs(lhs.ssize) >= Abs(rhs.ssize) >= 2
    modifies dst, dst.limbs
    ensures dst.Sized() && (dst.limbs == old(dst.limbs) || fresh(dst.limbs))
    ensures Leaves(old(dst.Value() + ConditionalNegate(negative, lhs.Value() * rhs.Value())), false,
                   old(TakesDifference(dst, lhs, rhs, negative)), old(DifferenceLength(dst, lhs, rhs)),
                   dst.Value(), dst.Valid())
    ensures var d, product := old(dst.Value()), old(lhs.Value() * rhs.Value());
      var t := if negative then -product else product;
      dst.Value() == if d < 0 < t || t < 0 < d then Abs(d + t) else d + t
  {
    hide Val;
    ghost var d, l, r := dst.Value(), lhs.Value(), rhs.Value();
    DifferenceIs(dst, lhs, rhs, negative, l * r);
    dst.Reserve(Max(Abs(lhs.ssize) + Abs(rhs.ssize), Abs(dst.ssize)) + 1);
    assert dst.Value() == d && lhs.Value() == l && rhs.Value() == r;
    AddSubMulRoomy(dst, lhs, rhs, negative);
  }

  /** A difference of magnitudes is what is left of numbers with opposite signs. */
  lemma DifferenceIs(dst: BigInteger, lhs: BigInteger, rhs: BigInteger, negative: bool, product: int)
    requires dst.Valid() && lhs.Valid() && rhs.Valid() && product == lhs.Value() * rhs.Value()
    ensures var d, t := dst.Value(), if negative then -product else product;
      TakesDifference(dst, lhs, rhs, negative) <==>
      Abs(lhs.ssize) >= 2 && Abs(rhs.ssize) >= 2 && (d < 0 < t || t < 0 < d)
    ensures DifferenceLength(dst, lhs, rhs) == Max(Length(Abs(dst.Value())), Length(Abs(product)))
  {
    SignOf(dst);
    SignOf(lhs);
    SignOf(rhs);
    ProductSign(lhs.Value(), rhs.Value(), product);
  }

  lemma ProductSign(x: int, y: int, product: int)
    requires product == x * y
    ensures product == 0 <==> x == 0 || y == 0
    ensures x != 0 && y != 0 ==> (product < 0 <==> (x < 0) != (y < 0))
    ensures Abs(product) == Abs(x) * Abs(y)
  {
    NegateProduct(x, y);
    NegateProduct(y, x);
    NegateProduct(Abs(x), y);
    if x != 0 && y != 0 { MulLessEq(Abs(x), 1, Abs(y)); }
  }

  /** Numbers of two limbs or more. */
  lemma LongIsLarge(x: BigInteger)
    requires x.Valid()
    ensures Abs(x.ssize) >= 2 <==> Abs(x.Value()) >= BASE
  {
    SignOf(x);
    assert Pow(BASE, 1) == BASE;
    if Abs(x.ssize) >= 2 {
      ValTop(x.Digits());
      PowMonotone(BASE, 1, Abs(x.ssize) - 1);
    } else {
      LengthAtMost(x.Digits());
    }
  }

  lemma LengthAtMost(a: seq<Limb>)
    requires |a| <= 1
    ensures Val(a) < BASE
  {
    ValBound(a);
    PowMonotone(BASE, |a|, 1);
    assert Pow(BASE, 1) == BASE;
  }

  /** The carry of a one-limb factor lost, rhs not being the longer one. */
  ghost predicate LosesCarryOf(dst: BigInteger, lhs: BigInteger, rhs: BigInteger)
    requires lhs.Valid() && rhs.Valid()
    reads dst, lhs, rhs, lhs.limbs, rhs.limbs
  {
    Abs(rhs.ssize) == 1 && LosesCarry(dst, lhs, rhs.limbs[0])
  }

  lemma OneLimbFactor(dst: BigInteger, lhs: BigInteger, rhs: BigInteger, negative: bool)
    requires dst.Valid() && lhs.Valid() && rhs.Valid() && Abs(rhs.ssize) == 1
    ensures SumWithProduct(dst.Value(), lhs.Value(), rhs.limbs[0], negative != (rhs.ssize < 0)) ==
      dst.Value() + ConditionalNegate(negative, lhs.Value() * rhs.Value())
  {
    OneLimbVal(rhs.Digits());
    NegateProduct(lhs.Value(), rhs.limbs[0]);
  }

  /** The two special cases, told from the values. */
  lemma OrderedCases(dst: BigInteger, lhs: BigInteger, rhs: BigInteger, negative: bool, product: int)
    requires dst.Valid() && lhs.Valid() && rhs.Valid() && Abs(lhs.ssize) >= Abs(rhs.ssize)
    requires product == lhs.Value() * rhs.Value()
    ensures var d, t, x, y := dst.Value(), if negative then -product else product, lhs.Value(), rhs.Value();
      && (LosesCarryOf(dst, lhs, rhs) <==>
          d == 0 && x < 0 && 0 < Abs(y) < BASE && Abs(product) >= Pow(BASE, Length(Abs(x))))
      && (TakesDifference(dst, lhs, rhs, negative) <==> Abs(y) >= BASE && (d < 0 < t || t < 0 < d))
      && DifferenceLength(dst, lhs, rhs) == Max(Length(Abs(d)), Length(Abs(product)))
  {
    DifferenceIs(dst, lhs, rhs, negative, product);
    SignOf(dst);
    SignOf(lhs);
    SignOf(rhs);
    LongIsLarge(rhs);
    ProductSign(lhs.Value(), rhs.Value(), product);
    if Abs(rhs.ssize) == 1 { OneLimbVal(rhs.Digits()); }
  }

  /** `_addsubmul_impl`, the longer factor first. */
  method AddSubMulOrdered(dst: BigInteger, lhs: BigInteger, rhs: BigInteger, negative: bool)
    requires dst.Valid() && lhs.Valid() && rhs.Valid() && Apart(dst, lhs) && Apart(dst, rhs) && Apart(lhs, rhs)
    requires Abs(lhs.ssize) >= Abs(rhs.ssize)
    modifies dst, dst.limbs
    ensures dst.Sized() && (dst.limbs == old(dst.limbs) || fresh(dst.limbs))
    ensures Leaves(old(dst.Value() + ConditionalNegate(negative, lhs.Value() * rhs.Value())),
                   old(LosesCarryOf(dst, lhs, rhs)), old(TakesDifference(dst, lhs, rhs, negative)),
                   old(DifferenceLength(dst, lhs, rhs)), dst.Value(), dst.Valid())
  {
    hide Length;
    if rhs.ssize == 0 {
      return;
    }
    if Abs(rhs.ssize) == 1 {
      OneLimbFactor(dst, lhs, rhs, negative);
      AddSubMulLimb(dst, lhs, rhs.limbs[0], negative != (rhs.ssize < 0));
    } else {
      AddSubMulLong(dst, lhs, rhs, negative);
    }
  }

  /**
   `_addsubmul_impl` of two big integers: dst + lhs * rhs, or dst - lhs * rhs, for every aliasing,
   but for two cases: a lost carry of a one-limb factor, and a difference of magnitudes, of which
   the absolute value is left.
   */
  method AddSubMul(dst: BigInteger, lhs: BigInteger, rhs: BigInteger, negative: bool)
    requires dst.Valid() && lhs.Valid() && rhs.Valid() && Apart(dst, lhs) && Apart(dst, rhs) && Apart(lhs, rhs)
    modifies dst, dst.limbs
    ensures dst.Sized() && (dst.limbs == old(dst.limbs) || fresh(dst.limbs))
    ensures var d, product := old(dst.Value()), old(lhs.Value() * rhs.Value());
      var t := if negative then -product else product;
      var swapped := Length(Abs(old(lhs.Value()))) < Length(Abs(old(rhs.Value())));
      var x := if swapped then old(rhs.Value()) else old(lhs.Value());
      var y := if swapped then old(lhs.Value()) else old(rhs.Value());
      // a carry is lost, or a difference of magnitudes is taken
      var lost := d == 0 && x < 0 && 0 < Abs(y) < BASE && Abs(product) >= Pow(BASE, Length(Abs(x)));
      var difference := Abs(y) >= BASE && (d < 0 < t || t < 0 < d);
      && (dst.Value() == (if difference then Abs(d + t) else d + t) <==> !lost)
      && (!lost && !difference ==> dst.Valid())
      && (difference ==> var n := Max(Length(Abs(d)), Length(Abs(product)));
          n > 0 && (dst.Valid() <==> Abs(d + t) >= Pow(BASE, n - 1)))
  {
    hide Val, Pow, Length;
    Commute(lhs.Value(), rhs.Value());
    SignOf(lhs);
    SignOf(rhs);
    ghost var product := lhs.Value() * rhs.Value();
    if Abs(lhs.ssize) < Abs(rhs.ssize) {
      OrderedCases(dst, rhs, lhs, negative, product);
      AddSubMulOrdered(dst, rhs, lhs, negative);
    } else {
      OrderedCases(dst, lhs, rhs, negative, product);
      AddSubMulOrdered(dst, lhs, rhs, negative);
    }
  }

  lemma LengthOf(x: BigInteger, n: nat)
    requires x.Valid() && n > 0 && Pow(BASE, n - 1) <= Abs(x.Value()) < Pow(BASE, n)
    ensures Abs(x.ssize) == n
  {
    LengthIs(x.Digits());
    LengthBelow(Abs(x.Value()), n);
    LengthAtLeast(Abs(x.Value()), n - 1);
  }

  lemma BasePowers()
    ensures Pow(BASE, 0) == 1 && Pow(BASE, 1) == BASE && Pow(BASE, 2) == BASE * BASE
  {}

  /** 0 + -(2^64 - 1) * 2 leaves 0. */
  method LostCarryExample() returns (x: BigInteger)
    ensures x.Sized() && x.Value() == 0
  {
    x := new BigInteger(0);
    var y := FromLimb(BASE - 1, true);
    BasePowers();
    LengthOf(y, 1);
    AddSubMulLimb(x, y, 2, false);
  }

  /** 1 - 2^64 * 2^64 leaves 2^128 - 1. */
  method DifferenceExample() returns (x: BigInteger)
    ensures x.Sized() && x.Value() == BASE * BASE - 1
  {
    hide Pow;
    x := FromLimb(1, false);
    var y := FromLimb(BASE - 1, false);
    AddSubLimb(y, y, 1, false);
    BasePowers();
    LengthOf(y, 2);
    AddSubMulLong(x, y, y, true);
  }
}
