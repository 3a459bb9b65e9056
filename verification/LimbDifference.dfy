/** The difference of two magnitudes with its sign and length, and when its length is one too long. */
module LimbDifference {
  import opened Powers
  import opened Limbs
  import opened LimbOps

  /** How much higher x is at place k. */
  function Gap(x: seq<Limb>, y: seq<Limb>, k: nat): int
    requires k < |x| && k < |y|
  {
    var a: int, b: int := x[k], y[k];
    a - b
  }

  /** a and b agree from place i on, and differ just below it. */
  predicate HighestDifference(a: seq<Limb>, b: seq<Limb>, i: nat) {
    && i <= |a| == |b|
    && (forall k | i <= k < |a| :: a[k] == b[k])
    && (i > 0 ==> a[i - 1] != b[i - 1])
  }

  lemma {:induction false} SameAbove(a: seq<Limb>, b: seq<Limb>, i: nat)
    requires i <= |a| == |b| && forall k | i <= k < |a| :: a[k] == b[k]
    ensures Val(a) - Val(b) == Val(a[..i]) - Val(b[..i])
  {
    if i < |a| {
      var n := |a| - 1;
      SameAbove(a[..n], b[..n], i);
      assert a[..n][..i] == a[..i] && b[..n][..i] == b[..i];
    } else {
      assert a[..i] == a && b[..i] == b;
    }
  }

  /** The difference is that of the two highest limbs, in place, and of the rest. */
  lemma TopTerms(a: seq<Limb>, b: seq<Limb>, i: nat)
    requires 0 < i <= |a| == |b| && forall k | i <= k < |a| :: a[k] == b[k]
    ensures Val(a) - Val(b) == Place(Gap(a, b, i - 1), i - 1) + Val(a[..i - 1]) - Val(b[..i - 1])
  {
    hide Val, Place, Pow;
    var x: int, y: int := a[i - 1], b[i - 1];
    SameAbove(a, b, i);
    PrefixPlace(a, i - 1);
    PrefixPlace(b, i - 1);
    PlaceAdd(x - y, y, i - 1);
  }

  lemma PlacePositive(x: int, i: nat)
    requires x > 0
    ensures Place(x, i) >= Pow(BASE, i) > 0
  {
    PowPositive(BASE, i);
    NothingAbove(x, i);
  }

  lemma HighestDecides(a: seq<Limb>, b: seq<Limb>, i: nat)
    requires HighestDifference(a, b, i)
    ensures i == 0 ==> Val(a) == Val(b)
    ensures i > 0 ==> (Val(a) > Val(b) <==> a[i - 1] > b[i - 1])
    ensures i > 0 ==> (Val(a) < Val(b) <==> a[i - 1] < b[i - 1])
  {
    hide Val, Place, Pow;
    if i == 0 {
      assert a == b;
    } else {
      var x: int, y: int := a[i - 1], b[i - 1];
      TopTerms(a, b, i);
      ValBound(a[..i - 1]);
      ValBound(b[..i - 1]);
      if x > y {
        PlacePositive(x - y, i - 1);
      } else {
        PlacePositive(y - x, i - 1);
        PlaceNegate(y - x, i - 1);
      }
    }
  }

  /** `reverse_find_not_n` of two numbers. */
  method ReverseFindNot(a: array<Limb>, b: array<Limb>, n: nat) returns (i: nat)
    requires n <= a.Length && n <= b.Length
    ensures HighestDifference(a[..n], b[..n], i)
  {
    i := n;
    while i > 0 && a[i - 1] == b[i - 1]
      invariant i <= n && forall k | i <= k < n :: a[k] == b[k]
    {
      i := i - 1;
    }
  }

  /** `reverse_compare_n` */
  method ReverseCompare(a: array<Limb>, b: array<Limb>, n: nat) returns (ord: int)
    requires n <= a.Length && n <= b.Length
    ensures ord < 0 <==> Val(a[..n]) < Val(b[..n])
    ensures ord > 0 <==> Val(a[..n]) > Val(b[..n])
  {
    var i := ReverseFindNot(a, b, n);
    HighestDecides(a[..n], b[..n], i);
    ord := if i == 0 then 0 else if a[i - 1] < b[i - 1] then -1 else 1;
  }

  /** `_fast_abs` */
  function Abs(x: int): nat {
    if x < 0 then -x else x
  }

  /** `_fast_conditional_negate` */
  function ConditionalNegate(condition: bool, x: int): int {
    if condition then -x else x
  }

  /** What `abs_subc_n_pos` leaves: the difference's magnitude out and signed length ret. */
  predicate SignedDifference(a: seq<Limb>, b: seq<Limb>, i: nat, ret: int, out: seq<Limb>) {
    && HighestDifference(a, b, i)
    && (ret > 0 <==> Val(a) > Val(b))
    && (ret < 0 <==> Val(a) < Val(b))
    && Val(out) == Abs(Val(a) - Val(b))
    && |out| == Abs(ret)
    && (i > 0 ==> |out| == if Val(out) >= Pow(BASE, i - 1) then i else i - 1)
  }

  /** The difference of numbers whose highest differing limbs, x's the larger, are the i-th. */
  method SubTop(dst: array<Limb>, x: array<Limb>, y: array<Limb>, i: nat) returns (len: nat)
    requires 0 < i <= dst.Length && i <= x.Length && i <= y.Length && x[i - 1] > y[i - 1]
    modifies dst
    ensures len <= i && Val(dst[..len]) == old(Val(x[..i])) - old(Val(y[..i]))
    ensures len == if Val(dst[..len]) >= Pow(BASE, i - 1) then i else i - 1
  {
    hide Val, Place, Pow;
    var hi: int := x[i - 1] - y[i - 1];
    TopTermsOf(x, y, i);
    ghost var k: int := Val(x[..i - 1]) - Val(y[..i - 1]);
    var borrow := SubcN(dst, x, y, i - 1, 0);
    BorrowTop(hi - borrow, borrow, i - 1, dst[..i - 1], k);
    len := PushTop(dst, i - 1, hi - borrow);
  }

  /** Writes the top limb unless it is zero. */
  method PushTop(dst: array<Limb>, i: nat, hi: Limb) returns (len: nat)
    requires i < dst.Length
    modifies dst
    ensures len == (if hi == 0 then i else i + 1) && Val(dst[..len]) == old(Val(dst[..i])) + Place(hi, i)
    ensures forall k | len <= k < dst.Length :: dst[k] == old(dst[k])
  {
    if hi != 0 {
      StoreTop(dst, i, hi);
      len := i + 1;
    } else {
      PlaceIs(0, i);
      len := i;
    }
  }

  lemma TopTermsOf(x: array<Limb>, y: array<Limb>, i: nat)
    requires 0 < i <= x.Length && i <= y.Length && x[i - 1] > y[i - 1]
    ensures var d: int := x[i - 1] - y[i - 1];
      Val(x[..i]) - Val(y[..i]) == Place(d, i - 1) + Val(x[..i - 1]) - Val(y[..i - 1])
    ensures Val(x[..i]) > Val(y[..i])
  {
    TopTerms(x[..i], y[..i], i);
    assert x[..i][..i - 1] == x[..i - 1] && y[..i][..i - 1] == y[..i - 1];
    HighestDecides(x[..i], y[..i], i);
  }

  /** The borrow of the limbs below taken from the top one. */
  lemma BorrowTop(hi: int, borrow: nat, n: nat, out: seq<Limb>, k: int)
    requires hi >= 0 && |out| == n && Val(out) - Place(borrow, n) == k
    ensures Val(out) + Place(hi, n) == k + Place(hi + borrow, n)
    ensures hi > 0 <==> Val(out) + Place(hi, n) >= Pow(BASE, n)
  {
    PlaceAdd(hi, borrow, n);
    ValBound(out);
    NothingAbove(hi, n);
  }

  method ZeroFrom(dst: array<Limb>, i: nat, n: nat)
    requires i <= n <= dst.Length
    modifies dst
    ensures forall k | 0 <= k < i || n <= k < dst.Length :: dst[k] == old(dst[k])
  {
    var k := i;
    while k < n
      invariant i <= k <= n
      invariant forall j | 0 <= j < i || n <= j < dst.Length :: dst[j] == old(dst[j])
    {
      dst[k] := 0;
      k := k + 1;
    }
  }

  lemma SignedFrom(s: seq<Limb>, r: seq<Limb>, i: nat, swapped: bool, out: seq<Limb>)
    requires HighestDifference(s, r, i) && i > 0 && swapped == (s[i - 1] < r[i - 1])
    requires var d := Val(s[..i]) - Val(r[..i]);
      Val(out) == ConditionalNegate(swapped, d)
    requires |out| == if Val(out) >= Pow(BASE, i - 1) then i else i - 1
    ensures SignedDifference(s, r, i, ConditionalNegate(swapped, |out|), out)
  {
    HighestDecides(s, r, i);
    SameAbove(s, r, i);
  }

  /** `abs_subc_n_pos`: dst may be either operand. */
  method AbsSubNPos(dst: array<Limb>, a: array<Limb>, b: array<Limb>, n: nat) returns (ret: int, ghost i: nat)
    requires n <= dst.Length && n <= a.Length && n <= b.Length
    modifies dst
    ensures Abs(ret) <= n
    ensures SignedDifference(old(a[..n]), old(b[..n]), i, ret, dst[..Abs(ret)])
  {
    ghost var s, r := a[..n], b[..n];
    var idx := ReverseFindNot(a, b, n);
    i := idx;
    ZeroFrom(dst, idx, n);
    if idx == 0 {
      HighestDecides(s, r, 0);
      return 0, i;
    }
    assert a[..idx] == s[..idx] && b[..idx] == r[..idx];
    assert a[idx - 1] == s[idx - 1] && b[idx - 1] == r[idx - 1];
    var swapped := a[idx - 1] < b[idx - 1];
    var len: nat;
    if swapped {
      len := SubTop(dst, b, a, idx);
    } else {
      len := SubTop(dst, a, b, idx);
    }
    ret := ConditionalNegate(swapped, len);
    SignedFrom(s, r, idx, swapped, dst[..len]);
  }

  /** b with zero limbs on top, n limbs in all. */
  function Padded(b: seq<Limb>, n: nat): (r: seq<Limb>)
    requires |b| <= n
    ensures |r| == n && forall k | 0 <= k < n :: r[k] == if k < |b| then b[k] else 0
  {
    b + seq(n - |b|, _ => 0)
  }

  lemma PaddedVal(b: seq<Limb>, n: nat)
    requires |b| <= n
    ensures Val(Padded(b, n)) == Val(b)
  {
    AppendPlace(b, seq(n - |b|, _ => 0));
    ValZeros(seq(n - |b|, _ => 0));
    PlaceIs(0, |b|);
  }

  /** `reverse_find_not_n` of a limb not zero from place m on: one past the highest, or m. */
  method TopNotZero(a: array<Limb>, m: nat, n: nat) returns (top: nat)
    requires m <= n <= a.Length
    ensures m <= top <= n && (top > m ==> a[top - 1] != 0) && forall k | top <= k < n :: a[k] == 0
  {
    top := n;
    while top > m && a[top - 1] == 0
      invariant m <= top <= n && forall k | top <= k < n :: a[k] == 0
    {
      top := top - 1;
    }
  }

  /** Zero limbs on top of both numbers change nothing. */
  lemma SignedWider(s: seq<Limb>, r: seq<Limb>, top: nat, i: nat, ret: int, out: seq<Limb>)
    requires |r| <= top <= |s| && SignedDifference(s[..top], Padded(r, top), i, ret, out)
    requires forall k | top <= k < |s| :: s[k] == 0
    ensures SignedDifference(s, Padded(r, |s|), i, ret, out)
  {
    var x, y := s, Padded(r, |s|);
    assert y[..top] == Padded(r, top);
    SameAbove(x, y, top);
  }

  /** The difference where a's limb at top - 1, above those of b, is the highest that differs. */
  method SubLonger(dst: array<Limb>, a: array<Limb>, top: nat, b: array<Limb>, m: nat) returns (len: nat)
    requires 1 <= m < top <= dst.Length && top <= a.Length && m <= b.Length && a[top - 1] != 0
    modifies dst
    ensures len <= top
    ensures SignedDifference(old(a[..top]), Padded(old(b[..m]), top), top, len, dst[..len])
  {
    hide Val, Place, Pow;
    ghost var s, r := a[..top], b[..m];
    PaddedVal(r, top);
    HighestDecides(s, Padded(r, top), top);
    var cf := SubcS(dst, a, top, b, m, 0);
    NoBorrow(dst[..top], cf, Val(s) - Val(r));
    len := top - (if dst[top - 1] == 0 then 1 else 0);
    DropZero(dst, top);
    SignedTop(s, Padded(r, top), dst[..len]);
  }

  /** `abs_subc_s_pos`: zero limbs on top of a are passed over. dst may be either operand. */
  method AbsSubSPos(dst: array<Limb>, a: array<Limb>, n: nat, b: array<Limb>, m: nat) returns (ret: int, ghost i: nat)
    requires 1 <= m <= n <= dst.Length && n <= a.Length && m <= b.Length
    modifies dst
    ensures Abs(ret) <= n
    ensures SignedDifference(old(a[..n]), Padded(old(b[..m]), n), i, ret, dst[..Abs(ret)])
  {
    ghost var s, r := a[..n], b[..m];
    var top := TopNotZero(a, m, n);
    ZeroFrom(dst, top, n);
    assert a[..top] == s[..top] && b[..m] == r;
    if top == m {
      ret, i := AbsSubNPos(dst, a, b, m);
      assert Padded(r, m) == r;
    } else {
      ret := SubLonger(dst, a, top, b, m);
      i := top;
    }
    SignedWider(s, r, top, i, ret, dst[..Abs(ret)]);
  }

  lemma SignedTop(s: seq<Limb>, r: seq<Limb>, out: seq<Limb>)
    requires 0 < |s| == |r| && s[|s| - 1] != 0 && r[|r| - 1] == 0
    requires Val(out) == Val(s) - Val(r) && |out| == if Val(out) >= Pow(BASE, |s| - 1) then |s| else |s| - 1
    ensures SignedDifference(s, r, |s|, |out|, out)
  {
    HighestDecides(s, r, |s|);
  }

  /** No borrow is left from a difference that is not negative. */
  lemma NoBorrow(out: seq<Limb>, cf: nat, d: int)
    requires Val(out) - Place(cf, |out|) == d && d >= 0
    ensures cf == 0 && Val(out) == d
  {
    ValBound(out);
    NothingAbove(cf, |out|);
  }

  /** One zero limb dropped from the top. */
  lemma DropZero(dst: array<Limb>, n: nat)
    requires 0 < n <= dst.Length
    ensures var len := n - (if dst[n - 1] == 0 then 1 else 0);
      && Val(dst[..len]) == Val(dst[..n])
      && len == if Val(dst[..n]) >= Pow(BASE, n - 1) then n else n - 1
  {
    assert dst[..n] == dst[..n - 1] + [dst[n - 1]];
    ValSnoc(dst[..n - 1], dst[n - 1]);
    ValBound(dst[..n - 1]);
    NothingAbove(dst[n - 1], n - 1);
  }

  // When the length is right.

  lemma NormalIff(a: seq<Limb>)
    ensures Normal(a) <==> a == [] || Val(a) >= Pow(BASE, |a| - 1)
  {
    if a != [] {
      ValBound(a[..|a| - 1]);
      NothingAbove(a[|a| - 1], |a| - 1);
    }
  }

  /** Below the highest difference, at k, the limb of x is 0 and that of y the largest, and the rest of x is less. */
  predicate Cancels(x: seq<Limb>, y: seq<Limb>, k: nat) {
    && 2 <= k < |x| == |y|
    && Gap(x, y, k) == 1 && x[k - 1] == 0 && y[k - 1] == BASE - 1
    && Val(x[..k - 1]) < Val(y[..k - 1])
    && forall j | k < j < |x| :: x[j] == y[j]
  }

  lemma TwoTopTerms(x: seq<Limb>, y: seq<Limb>, k: nat)
    requires 1 <= k < |x| == |y| && forall j | k < j < |x| :: x[j] == y[j]
    ensures var c, e := Gap(x, y, k), Gap(x, y, k - 1);
      && Val(x) - Val(y) == (c * BASE + e) * Pow(BASE, k - 1) + Val(x[..k - 1]) - Val(y[..k - 1])
      && Val(x[..k - 1]) < Pow(BASE, k - 1) && Val(y[..k - 1]) < Pow(BASE, k - 1)
  {
    hide Val, Place, Pow;
    var c, e := Gap(x, y, k), Gap(x, y, k - 1);
    TopTerms(x, y, k + 1);
    TopTerms(x[..k], y[..k], k);
    assert x[..k][..k - 1] == x[..k - 1] && y[..k][..k - 1] == y[..k - 1];
    TwoPlaces(c, e, k - 1);
    ValBound(x[..k - 1]);
    ValBound(y[..k - 1]);
  }

  lemma TwoPlaces(c: int, e: int, i: nat)
    ensures Place(c, i + 1) + Place(e, i) == (c * BASE + e) * Pow(BASE, i)
  {
    PlaceUp(c, i);
    PlaceAdd(c * BASE, e, i);
    PlaceIs(c * BASE + e, i);
  }

  lemma SmallSum(t: int, p: nat, x: nat, y: nat)
    requires x < p && y < p && t >= 1
    ensures t * p + x - y < p <==> t == 1 && x < y
  {
    if t >= 2 { MulLessEq(p, 2, t); }
  }

  /** The difference is shorter by two limbs or more exactly when it cancels so. */
  lemma CancelsIff(x: seq<Limb>, y: seq<Limb>, i: nat)
    requires HighestDifference(x, y, i) && i >= 2 && x[i - 1] > y[i - 1]
    ensures Val(x) - Val(y) < Pow(BASE, i - 2) <==> Cancels(x, y, i - 1)
  {
    var k := i - 1;
    var c, e := Gap(x, y, k), Gap(x, y, k - 1);
    TwoTopTerms(x, y, k);
    SmallSum(c * BASE + e, Pow(BASE, k - 1), Val(x[..k - 1]), Val(y[..k - 1]));
    if k == 1 { assert x[..0] == [] && y[..0] == []; }
  }

  /** The operands whose difference comes out with zero limbs on top. */
  ghost predicate LeavesZeros(a: seq<Limb>, b: seq<Limb>) {
    exists k: nat :: Cancels(a, b, k) || Cancels(b, a, k)
  }

  lemma LeavesZerosAt(a: seq<Limb>, b: seq<Limb>, i: nat)
    requires HighestDifference(a, b, i)
    ensures LeavesZeros(a, b) <==> i >= 2 && (Cancels(a, b, i - 1) || Cancels(b, a, i - 1))
  {
    if LeavesZeros(a, b) {
      var k: nat :| Cancels(a, b, k) || Cancels(b, a, k);
      assert a[k] != b[k] && k == i - 1;
    }
  }

  /** The length returned is right unless the difference leaves zeros. */
  lemma NormalDifference(a: seq<Limb>, b: seq<Limb>, i: nat, ret: int, out: seq<Limb>)
    requires SignedDifference(a, b, i, ret, out)
    ensures Normal(out) <==> !LeavesZeros(a, b)
  {
    LeavesZerosAt(a, b, i);
    NormalIff(out);
    HighestDecides(a, b, i);
    if i >= 2 {
      if a[i - 1] > b[i - 1] { CancelsIff(a, b, i); } else { CancelsIff(b, a, i); }
      PowMonotone(BASE, i - 2, i - 1);
    }
  }
}
