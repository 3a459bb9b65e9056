/** Truncating division of big integers, and remainders of division by powers of two. */
module BigIntegerDivision {
  import opened Powers
  import opened Limbs
  import opened LimbOps
  import opened LimbDifference
  import opened LimbDivision
  import opened BigIntegers
  import opened BigIntegerProducts

  lemma QuotientLength(u: nat, d: nat, n: nat, m: nat)
    requires 1 <= m < n && u >= Pow(BASE, n - 1) && 0 < d < Pow(BASE, m)
    ensures u / d >= Pow(BASE, n - m - 1)
  {
    var q, p := u / d, Pow(BASE, n - m - 1);
    assert u < (q + 1) * d;
    PowAdd(BASE, n - m - 1, m);
    hide Pow;
    QuotientAtLeast(u, d, q, p, Pow(BASE, m));
  }

  lemma QuotientAtLeast(u: nat, d: nat, q: nat, p: nat, b: nat)
    requires u < (q + 1) * d && d < b && p * b <= u
    ensures q >= p
  {
    if q + 1 <= p {
      MulLessEq(d, q + 1, p);
      MulLessEq(p, d, b);
    }
  }

  /** Division of arrays apart, the results without zeros on top. */
  method DivideApart(qp: array<Limb>, rp: array<Limb>, np: array<Limb>, n: nat, dp: array<Limb>, d: nat)
      returns (ql: nat, rl: nat)
    requires 1 <= d <= n <= np.Length && d <= dp.Length && dp[d - 1] != 0 && np[n - 1] != 0
    requires n - d + 1 <= qp.Length && d <= rp.Length && qp != rp && qp != np && qp != dp && rp != np && rp != dp
    modifies qp, rp
    ensures ql <= qp.Length && rl <= rp.Length && Normal(qp[..ql]) && Normal(rp[..rl])
    ensures Val(dp[..d]) > 0
    ensures Val(qp[..ql]) == Val(np[..n]) / Val(dp[..d])
    ensures Val(rp[..rl]) == Val(np[..n]) % Val(dp[..d])
  {
    hide Val, Place, Pow;
    DivQrS(qp, rp, np, n, dp, d);
    ql := n - d + 1 - (if qp[n - d] == 0 then 1 else 0);
    DropZero(qp, n - d + 1);
    QuotientNormal(np[..n], dp[..d]);
    NormalIff(qp[..ql]);
    rl := Normalize(rp, d);
  }

  lemma QuotientNormal(u: seq<Limb>, v: seq<Limb>)
    requires 1 <= |v| <= |u| && Normal(u) && Normal(v)
    ensures Val(v) > 0 && (|v| < |u| ==> Val(u) / Val(v) >= Pow(BASE, |u| - |v| - 1))
  {
    ValTop(u);
    ValTop(v);
    ValBound(v);
    if |v| < |u| { QuotientLength(Val(u), Val(v), |u|, |v|); }
  }

  /** The operands that share the results' arrays are copied first. */
  method DivideArrays(qp: array<Limb>, rp: array<Limb>, num: array<Limb>, n: nat, div: array<Limb>, d: nat)
      returns (ql: nat, rl: nat)
    requires 1 <= d <= n <= num.Length && d <= div.Length && div[d - 1] != 0 && num[n - 1] != 0
    requires qp != rp && n - d + 1 <= qp.Length && d <= rp.Length
    modifies qp, rp
    ensures ql <= qp.Length && rl <= rp.Length && Normal(qp[..ql]) && Normal(rp[..rl])
    ensures old(Val(div[..d])) > 0
    ensures Val(qp[..ql]) == old(Val(num[..n])) / old(Val(div[..d]))
    ensures Val(rp[..rl]) == old(Val(num[..n])) % old(Val(div[..d]))
  {
    ghost var u, v := num[..n], div[..d];
    var np, dp := num, div;
    if dp == rp || dp == qp { dp := Copied(dp, d); }
    if np == rp || np == qp { np := Copied(np, n); }
    assert np[..n] == u && dp[..d] == v && dp[d - 1] == v[d - 1] && np[n - 1] == u[n - 1];
    ql, rl := DivideApart(qp, rp, np, n, dp, d);
    assert np[..n] == u && dp[..d] == v;
  }

  /** quot and rem are quotient and remainder towards zero. */
  ghost predicate Divides(num: int, div: int, quot: int, rem: int) {
    && num == quot * div + rem
    && Abs(rem) < Abs(div)
    && (rem == 0 || (rem < 0) == (num < 0))
  }

  lemma DividesSigned(nneg: bool, n: nat, dneg: bool, d: nat, q: nat, r: nat)
    requires d > 0 && q == n / d && r == n % d
    ensures Divides(ConditionalNegate(nneg, n), ConditionalNegate(dneg, d),
                    ConditionalNegate(nneg != dneg, q), ConditionalNegate(nneg, r))
  {
    assert n == d * q + r && r < d;
    Commute(q, d);
    SignedProduct(nneg != dneg, q, dneg, d);
    WithSigns(nneg, n, dneg, d, q, r, q * d, ConditionalNegate(nneg != dneg, q) * ConditionalNegate(dneg, d));
  }

  /** The product t of quotient and divisor, and with their signs x. */
  lemma WithSigns(nneg: bool, n: nat, dneg: bool, d: nat, q: nat, r: nat, t: nat, x: int)
    requires n == t + r && r < d && x == ConditionalNegate((nneg != dneg) != dneg, t)
    ensures ConditionalNegate(nneg, n) == x + ConditionalNegate(nneg, r)
    ensures Abs(ConditionalNegate(nneg, r)) < Abs(ConditionalNegate(dneg, d))
  {}

  lemma DividesSmaller(num: int, div: int)
    requires Abs(num) < Abs(div)
    ensures Divides(num, div, 0, num)
  {}

  /** num is shorter than div. */
  method TdivSmall(quot: BigInteger, rem: BigInteger, num: BigInteger, div: BigInteger)
    requires quot.Valid() && rem.Valid() && num.Valid() && div.Valid() && Abs(num.ssize) < Abs(div.ssize)
    requires quot != rem && Apart(quot, rem) && Apart(rem, num) && Abs(div.ssize) <= rem.limbs.Length
    modifies quot`ssize, rem`ssize, rem.limbs
    ensures quot.Valid() && rem.Valid()
    ensures Divides(old(num.Value()), old(div.Value()), quot.Value(), rem.Value())
  {
    LongerIsMore(num.Digits(), div.Digits());
    DividesSmaller(num.Value(), div.Value());
    if num.limbs != rem.limbs {
      CopyLimbs(rem.limbs, num.limbs, Abs(num.ssize));
      rem.SetSize(num.ssize < 0, Abs(num.ssize));
    }
    quot.SetSize(false, 0);
  }

  /** num is not shorter than div. */
  method TdivLarge(quot: BigInteger, rem: BigInteger, num: BigInteger, div: BigInteger)
    requires quot.Valid() && rem.Valid() && num.Valid() && div.Valid() && 1 <= Abs(div.ssize) <= Abs(num.ssize)
    requires quot != rem && Apart(quot, rem)
    requires Apart(quot, num) && Apart(quot, div) && Apart(rem, num) && Apart(rem, div)
    requires Abs(num.ssize) - Abs(div.ssize) + 1 <= quot.limbs.Length && Abs(div.ssize) <= rem.limbs.Length
    modifies quot`ssize, rem`ssize, quot.limbs, rem.limbs
    ensures quot.Valid() && rem.Valid()
    ensures Divides(old(num.Value()), old(div.Value()), quot.Value(), rem.Value())
  {
    hide Val;
    var nneg, dneg := num.ssize < 0, div.ssize < 0;
    ghost var n, d := Val(num.Digits()), Val(div.Digits());
    var ql, rl := DivideArrays(quot.limbs, rem.limbs, num.limbs, Abs(num.ssize), div.limbs, Abs(div.ssize));
    ghost var q, r := Val(quot.limbs[..ql]), Val(rem.limbs[..rl]);
    DividesSigned(nneg, n, dneg, d, q, r);
    SetBoth(quot, nneg != dneg, ql, rem, nneg, rl);
  }

  method SetBoth(a: BigInteger, aneg: bool, n: nat, b: BigInteger, bneg: bool, m: nat)
    requires a != b && n <= a.limbs.Length && m <= b.limbs.Length && Normal(a.limbs[..n]) && Normal(b.limbs[..m])
    modifies a`ssize, b`ssize
    ensures a.Valid() && a.Value() == ConditionalNegate(aneg, Val(a.limbs[..n]))
    ensures b.Valid() && b.Value() == ConditionalNegate(bneg, Val(b.limbs[..m]))
  {
    a.SetSize(aneg, n);
    b.SetSize(bneg, m);
  }

  /** `_tdiv_qr_impl`: any of the results may be any of the operands. */
  method TdivQr(quot: BigInteger, rem: BigInteger, num: BigInteger, div: BigInteger)
    requires quot.Valid() && rem.Valid() && num.Valid() && div.Valid() && div.ssize != 0
    requires quot != rem && Apart(quot, rem)
    requires Apart(quot, num) && Apart(quot, div) && Apart(rem, num) && Apart(rem, div)
    modifies quot, rem, quot.limbs, rem.limbs
    ensures quot.Valid() && rem.Valid()
    ensures var n, d := old(num.Value()), old(div.Value());
      && n == quot.Value() * d + rem.Value()
      && (if d < 0 then d < rem.Value() < -d else -d < rem.Value() < d)
      && (n >= 0 ==> rem.Value() >= 0) && (n <= 0 ==> rem.Value() <= 0)
  {
    ghost var n, d := num.Value(), div.Value();
    hide Divides;
    var qssize := Abs(num.ssize) - Abs(div.ssize) + 1;
    ghost var u, v := num.Digits(), div.Digits();
    rem.Reserve(Abs(div.ssize));
    assert num.Digits() == u && div.Digits() == v;
    if qssize <= 0 {
      TdivSmall(quot, rem, num, div);
    } else {
      quot.Reserve(qssize);
      assert num.Digits() == u && div.Digits() == v;
      TdivLarge(quot, rem, num, div);
    }
    DividesMeans(n, d, quot.Value(), rem.Value());
  }

  lemma DividesMeans(num: int, div: int, quot: int, rem: int)
    requires Divides(num, div, quot, rem)
    ensures num == quot * div + rem && (if div < 0 then div < rem < -div else -div < rem < div)
    ensures (num >= 0 ==> rem >= 0) && (num <= 0 ==> rem <= 0)
  {
    if num == 0 && rem != 0 { SmallMultiple(quot, div, rem); }
  }

  lemma SmallMultiple(quot: int, div: int, rem: int)
    requires quot * div + rem == 0 && Abs(rem) < Abs(div)
    ensures rem == 0
  {
    if quot != 0 {
      ProductSign(quot, div, quot * div);
      MulLessEq(Abs(div), 1, Abs(quot));
    }
  }

  // Remainders of division by a power of two.

  lemma ModIs(n: int, d: nat, q: int, r: nat)
    requires d > 0 && n == q * d + r && r < d
    ensures n % d == r
  {
    var q', r' := n / d, n % d;
    assert n == q' * d + r' && 0 <= r' < d;
    if q < q' {
      MulLessEq(d, q + 1, q');
    } else if q' < q {
      MulLessEq(d, q' + 1, q);
    }
  }

  lemma ModShift(x: int, k: int, m: nat)
    requires m > 0
    ensures (x + k * m) % m == x % m
  {
    var q := x / m;
    assert x == q * m + x % m;
    Distribute(m, q, k);
    ModIs(x + k * m, m, q + k, x % m);
  }

  /** m is 2^(64 * offset + shift), and t = 2^shift masks the limb at offset. */
  predicate Splits(m: nat, t: nat, p: nat, offset: nat) {
    m > 0 && t > 0 && m == t * Pow(BASE, offset) && Pow(BASE, offset + 1) == p * m
  }

  lemma SplitsAt(offset: nat, shift: nat)
    requires shift < 64
    ensures Splits(Pow(2, 64 * offset + shift), Pow(2, shift), Pow(2, 64 - shift), offset)
  {
    BaseIsTwoTo64();
    PowPositive(2, shift);
    PowPositive(2, 64 * offset + shift);
    PowPow(2, 64, offset);
    PowAdd(2, shift, 64 * offset);
    PowAdd(2, 64 - shift, shift);
    MulAssoc(Pow(2, 64 - shift), Pow(2, shift), Pow(BASE, offset));
  }

  /** Limbs above do not matter to the remainder. */
  lemma HighLimbsVanish(s: seq<Limb>, k: nat, p: nat, m: nat)
    requires k <= |s| && m > 0 && Pow(BASE, k) == p * m
    ensures Val(s) % m == Val(s[..k]) % m
  {
    ValSplit(s, k);
    MultipleVanishes(Val(s[..k]), p, m, Val(s[k..]));
  }

  lemma MultipleVanishes(x: nat, p: nat, m: nat, h: nat)
    requires m > 0
    ensures (x + p * m * h) % m == x % m
  {
    assert p * m * h == (p * h) * m;
    ModShift(x, p * h, m);
  }

  /** Masking the top limb takes the remainder. */
  lemma MaskedTop(low: seq<Limb>, n: nat, x: Limb, t: nat, m: nat)
    requires |low| == n && t > 0 && m == t * Pow(BASE, n) && m > 0
    ensures 0 <= x % t < BASE && Val(low) + Place(x % t, n) == Val(low + [x]) % m
  {
    hide Val, Place, Pow;
    var y := x % t;
    SmallerRest(x, t, y);
    ValSnoc(low, x);
    ValBound(low);
    Commuted(x, n);
    Commuted(y, n);
    MaskedPlaces(Val(low), Pow(BASE, n), x, t, m, y, Place(x, n), Place(y, n));
  }

  lemma SmallerRest(x: nat, t: nat, y: nat)
    requires t > 0 && y == x % t
    ensures y <= x
  {}

  lemma MaskedPlaces(v: nat, b: nat, x: nat, t: nat, m: nat, y: nat, px: int, py: int)
    requires v < b && t > 0 && m == t * b && m > 0 && y == x % t && px == b * x && py == b * y
    ensures v + px >= 0 && (v + px) % m == v + py
  {
    MaskedSum(v, b, x, t, m);
  }

  lemma MaskedSum(v: nat, b: nat, x: nat, t: nat, m: nat)
    requires v < b && t > 0 && m == t * b && m > 0
    ensures (v + b * x) % m == v + b * (x % t)
  {
    var q, r := x / t, x % t;
    MaskedParts(b, q, t, r);
    MulLessEq(b, r + 1, t);
    Distribute(b, r, 1);
    ModIs(v + b * x, m, q, v + b * r);
  }

  lemma MaskedParts(b: int, q: int, t: int, r: int)
    ensures b * (q * t + r) == q * (t * b) + b * r
  {
    Distribute(b, q * t, r);
  }

  /** Stores the limb on top and drops zeros. */
  method StoreNormal(rp: array<Limb>, offset: nat, hi: Limb) returns (len: nat)
    requires offset < rp.Length
    modifies rp
    ensures len <= rp.Length && Normal(rp[..len])
    ensures Val(rp[..len]) == old(Val(rp[..offset])) + Place(hi, offset)
  {
    hide Val, Place;
    ghost var low := rp[..offset];
    StoreTop(rp, offset, hi);
    assert rp[..offset] == low;
    if hi == 0 {
      PlaceIs(0, offset);
      len := Normalize(rp, offset);
    } else {
      len := offset + 1;
    }
  }

  /** The end of `_cfdiv_r_2exp_impl`: masks the top limb and drops zeros. */
  method MaskTop(rp: array<Limb>, offset: nat, t: nat, ghost m: nat) returns (len: nat)
    requires offset < rp.Length && t > 0 && m == t * Pow(BASE, offset) && m > 0
    modifies rp
    ensures len <= rp.Length && Normal(rp[..len])
    ensures Val(rp[..len]) == old(Val(rp[..offset + 1])) % m
  {
    hide Val, Place, Pow;
    assert rp[..offset + 1] == rp[..offset] + [rp[offset]];
    MaskedTop(rp[..offset], offset, rp[offset], t, m);
    len := StoreNormal(rp, offset, rp[offset] % t);
  }

  lemma ShorterIsLess(s: seq<Limb>, offset: nat, m: nat, t: nat, p: nat)
    requires |s| <= offset && Splits(m, t, p, offset)
    ensures Val(s) % m == Val(s) < m
  {
    hide Val, Pow;
    ValBound(s);
    PowMonotone(BASE, |s|, offset);
    MulLessEq(Pow(BASE, offset), 1, t);
    ModIs(Val(s), m, 0, Val(s));
  }

  function Min(a: nat, b: nat): nat {
    if a < b then a else b
  }

  /** The branch that keeps num's sign: the low bits of its magnitude. */
  method TruncateBits(rem: BigInteger, num: BigInteger, offset: nat, t: nat, ghost m: nat, ghost p: nat)
    requires rem.Valid() && num.Valid() && Apart(rem, num) && Splits(m, t, p, offset)
    modifies rem, rem.limbs
    ensures rem.Valid() && (rem.limbs == old(rem.limbs) || fresh(rem.limbs))
    ensures rem.Value() == ConditionalNegate(old(num.ssize) < 0, old(Val(num.Digits())) % m)
  {
    hide Val;
    ghost var v := num.Digits();
    var neg, nusize := num.ssize < 0, Abs(num.ssize);
    if nusize <= offset { ShorterIsLess(v, offset, m, t, p); } else { HighLimbsVanish(v, offset + 1, p, m); }
    if rem != num {
      var size := Min(nusize, offset + 1);
      rem.Reserve(size);
      CopyLimbs(rem.limbs, num.limbs, size);
      if nusize <= offset {
        rem.SetSize(neg, nusize);
        return;
      }
    } else if nusize <= offset {
      return;
    }
    assert rem.limbs[..offset + 1] == v[..offset + 1];
    var len := MaskTop(rem.limbs, offset, t, m);
    rem.SetSize(neg, len);
  }

  /** `find_not_n(a, 0, n)`: the lowest limb that is not zero, or n. */
  method FindNotZero(a: array<Limb>, n: nat) returns (i: nat)
    requires n <= a.Length
    ensures i == n <==> Val(a[..n]) == 0
  {
    i := 0;
    while i < n && a[i] == 0
      invariant i <= n && forall k | 0 <= k < i :: a[k] == 0
    {
      i := i + 1;
    }
    if i == n {
      ValZeros(a[..n]);
    } else {
      LimbCounts(a[..n], i);
    }
  }

  lemma {:induction false} LimbCounts(s: seq<Limb>, i: nat)
    requires i < |s| && s[i] != 0
    ensures Val(s) > 0
  {
    var n := |s| - 1;
    if i < n {
      LimbCounts(s[..n], i);
    } else {
      PlacePositive(s[n], n);
    }
  }

  /** Whether the low bits are all zero. */
  method LowBitsZero(np: array<Limb>, n: nat, offset: nat, t: nat, ghost m: nat, ghost p: nat) returns (zero: bool)
    requires 1 <= n <= np.Length && np[n - 1] != 0 && Splits(m, t, p, offset)
    ensures zero <==> Val(np[..n]) % m == 0
  {
    if n <= offset {
      ShorterIsLess(np[..n], offset, m, t, p);
      ValTop(np[..n]);
      return false;
    }
    HighLimbsVanish(np[..n], offset + 1, p, m);
    assert np[..n][..offset + 1] == np[..offset] + [np[offset]];
    MaskedTop(np[..offset], offset, np[offset], t, m);
    var i := FindNotZero(np, offset);
    if np[offset] % t != 0 {
      PlacePositive(np[offset] % t, offset);
    } else {
      PlaceIs(0, offset);
    }
    zero := i == offset && np[offset] % t == 0;
  }

  /** The complement of the low limbs to BASE^(offset + 1). */
  method ComplementLimbs(rp: array<Limb>, np: array<Limb>, n: nat, offset: nat)
    requires offset < rp.Length && n <= np.Length && Val(np[..Min(n, offset + 1)]) > 0
    modifies rp
    ensures Val(rp[..offset + 1]) == Pow(BASE, offset + 1) - old(Val(np[..Min(n, offset + 1)]))
  {
    hide Val;
    var size := Min(n, offset + 1);
    ghost var w := Val(np[..size]);
    var zero := NegateN(rp, np, size);
    var i := size;
    while i <= offset
      invariant size <= i <= offset + 1 && Val(rp[..i]) == Pow(BASE, i) - w
    {
      PlaceIs(BASE - 1, i);
      StoreTop(rp, i, BASE - 1);
      i := i + 1;
    }
  }

  lemma ComplementMod(w: nat, p: nat, m: nat)
    requires m > 0 && w % m != 0
    ensures (p * m - w) % m == m - w % m
  {
    var q, r := w / m, w % m;
    assert w == q * m + r;
    var k: int := p - q - 1;
    Distribute(m, p - q, -1);
    Distribute(m, p, -q);
    ModIs(p * m - w, m, k, m - r);
  }

  lemma LowLimbs(v: seq<Limb>, k: nat, p: nat, m: nat)
    requires m > 0 && Pow(BASE, k) == p * m && Val(v) % m != 0
    ensures var w := Val(v[..Min(|v|, k)]);
      w > 0 && w % m == Val(v) % m
  {
    hide Val, Pow;
    if |v| <= k {
      assert v[..|v|] == v;
    } else {
      HighLimbsVanish(v, k, p, m);
    }
    ModIs(0, m, 0, 0);
  }

  method ComplementAndMask(rp: array<Limb>, np: array<Limb>, n: nat, offset: nat, t: nat, ghost m: nat, ghost p: nat)
      returns (len: nat)
    requires offset < rp.Length && n <= np.Length && Splits(m, t, p, offset) && Val(np[..n]) % m != 0
    modifies rp
    ensures len <= rp.Length && Normal(rp[..len])
    ensures Val(rp[..len]) == m - old(Val(np[..n]) % m)
  {
    LowLimbs(np[..n], offset + 1, p, m);
    assert np[..n][..Min(n, offset + 1)] == np[..Min(n, offset + 1)];
    ghost var w := Val(np[..Min(n, offset + 1)]);
    ComplementLimbs(rp, np, n, offset);
    ComplementMod(w, p, m);
    len := MaskTop(rp, offset, t, m);
  }

  /** The branch that changes num's sign: the complement of the low bits, unless they are zero. */
  method ComplementBits(rem: BigInteger, num: BigInteger, offset: nat, t: nat, ghost m: nat, ghost p: nat)
    requires rem.Valid() && num.Valid() && Apart(rem, num) && num.ssize != 0 && Splits(m, t, p, offset)
    modifies rem, rem.limbs
    ensures rem.Valid() && (rem.limbs == old(rem.limbs) || fresh(rem.limbs))
    ensures var v := old(Val(num.Digits())) % m;
      rem.Value() == if v == 0 then 0 else ConditionalNegate(old(num.ssize) >= 0, m - v)
  {
    hide Pow;
    ghost var v := num.Digits();
    var neg, nusize := num.ssize < 0, Abs(num.ssize);
    var zero := LowBitsZero(num.limbs, nusize, offset, t, m, p);
    if zero {
      rem.SetSize(false, 0);
      return;
    }
    rem.Reserve(offset + 1);
    assert num.limbs[..nusize] == v;
    var len := ComplementAndMask(rem.limbs, num.limbs, nusize, offset, t, m, p);
    rem.SetSize(!neg, len);
  }

  /** rem is the remainder of num by m, of the sign that rounding up or down gives it. */
  ghost predicate IsRemainder(num: int, m: nat, up: bool, rem: int)
    requires m > 0
  {
    (num - rem) % m == 0 && Abs(rem) < m && (if up then rem <= 0 else rem >= 0)
  }

  lemma MultiplesOnly(q: int, m: nat)
    requires m > 0
    ensures (q * m) % m == 0 && (0 - q * m) % m == 0
  {
    ModIs(q * m, m, q, 0);
    ModIs(0 - q * m, m, 0 - q, 0);
  }

  /** The remainder of smallest magnitude, and the one of the other sign. */
  function Remainder(neg: bool, r: nat, m: nat, up: bool): int
    requires r < m
  {
    if neg == up then ConditionalNegate(neg, r) else if r == 0 then 0 else ConditionalNegate(!neg, m - r)
  }

  lemma RemainderIs(neg: bool, q: nat, r: nat, m: nat, up: bool)
    requires r < m
    ensures IsRemainder(ConditionalNegate(neg, q * m + r), m, up, Remainder(neg, r, m, up))
  {
    MultiplesOnly(q, m);
    MultiplesOnly(q + 1, m);
    assert (q + 1) * m == q * m + m;
  }

  lemma RemainderOfMagnitude(neg: bool, v: nat, m: nat, up: bool)
    requires m > 0
    ensures IsRemainder(ConditionalNegate(neg, v), m, up, Remainder(neg, v % m, m, up))
  {
    assert v == v / m * m + v % m;
    RemainderIs(neg, v / m, v % m, m, up);
  }

  /** The two branches of `_cfdiv_r_2exp_impl`. */
  method RemainderBits(rem: BigInteger, num: BigInteger, offset: nat, t: nat, ghost m: nat, ghost p: nat, up: bool)
    requires rem.Valid() && num.Valid() && Apart(rem, num) && num.ssize != 0 && Splits(m, t, p, offset)
    modifies rem, rem.limbs
    ensures rem.Valid() && (rem.limbs == old(rem.limbs) || fresh(rem.limbs))
    ensures rem.Value() == Remainder(old(num.ssize) < 0, old(Val(num.Digits())) % m, m, up)
  {
    if (num.ssize < 0) == up {
      TruncateBits(rem, num, offset, t, m, p);
    } else {
      ComplementBits(rem, num, offset, t, m, p);
    }
  }

  /** `_cfdiv_r_2exp_impl`: rounding up if xdir is not negative, down otherwise. */
  method CfdivR2Exp(rem: BigInteger, num: BigInteger, shift: nat, xdir: int)
    requires rem.Valid() && num.Valid() && Apart(rem, num)
    modifies rem, rem.limbs
    ensures rem.Valid() && (rem.limbs == old(rem.limbs) || fresh(rem.limbs))
    ensures Pow(2, shift) > 0 && (old(num.Value()) - rem.Value()) % Pow(2, shift) == 0
    ensures if xdir >= 0 then rem.Value() <= 0 < rem.Value() + Pow(2, shift) else 0 <= rem.Value() < Pow(2, shift)
  {
    var offset, bits := shift / 64, shift % 64;
    SplitsAt(offset, bits);
    ghost var m := Pow(2, shift);
    RemainderOfMagnitude(num.ssize < 0, Val(num.Digits()), m, xdir >= 0);
    if num.ssize == 0 {
      ModIs(0, m, 0, 0);
      rem.SetSize(false, 0);
    } else {
      RemainderBits(rem, num, offset, Pow(2, bits), m, Pow(2, 64 - bits), xdir >= 0);
    }
  }
}
