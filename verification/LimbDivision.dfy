/**
 Division of limb arrays: one limb at a time by a limb, and the schoolbook division that guesses
 a quotient limb from the top three limbs of the numerator and the top two of the divisor.
 */
module LimbDivision {
  import opened Powers
  import opened Limbs
  import opened LimbOps
  import opened LimbDifference

  // By one limb.

  /** `div2by1_divider::divide`, by what it is to compute. */
  method Divide2By1(lo: Limb, hi: Limb, d: Limb) returns (q: Limb, r: Limb)
    requires hi < d
    ensures hi * BASE + lo == q * d + r && r < d
  {
    q, r := Divide(hi, lo, d);
  }

  /** A quotient of one limb. */
  method Divide(hi: nat, lo: Limb, d: nat) returns (q: Limb, r: nat)
    requires hi < d
    ensures hi * BASE + lo == q * d + r && r < d
  {
    var t: nat := hi * BASE + lo;
    QuotientIsLimb(t, hi, lo, d);
    q, r := t / d, t % d;
  }

  lemma QuotientIsLimb(t: nat, hi: nat, lo: nat, d: nat)
    requires t == hi * BASE + lo && lo < BASE && hi < d
    ensures t / d < BASE
  {
    var q := t / d;
    assert q * d <= t;
    if q >= BASE {
      MulLessEq(d, BASE, q);
      MulLessEq(BASE, hi + 1, d);
    }
  }

  lemma ValCons(x: Limb, a: seq<Limb>)
    ensures Val([x] + a) == x + BASE * Val(a)
  {
    AppendPlace([x], a);
    ValSnoc([], x);
    assert [] + [x] == [x];
    assert Place(Val(a), 1) == BASE * Place(Val(a), 0);
  }

  /** One step of long division: the next limb x below, the next limb q of the quotient. */
  lemma NextPlace(low: int, x: int, v: int, rest: int, i: nat)
    requires v == x + BASE * rest
    ensures low + Place(x, i) + Place(rest, i + 1) == low + Place(v, i)
  {
    PlaceUp(rest, i);
    PlaceAdd(x, BASE * rest, i);
  }

  lemma LongStep(quot: nat, d: nat, r: nat, x: nat, q: nat, r': nat)
    requires r * BASE + x == q * d + r'
    ensures (q + BASE * quot) * d + r' == x + BASE * (quot * d + r)
  {
    assert (q + BASE * quot) * d == q * d + BASE * (quot * d);
  }

  /** `div_qr_1` */
  method DivBy1(qp: array<Limb>, np: array<Limb>, n: nat, d: Limb) returns (r: Limb)
    requires n <= np.Length && n <= qp.Length && qp != np && d > 0
    modifies qp
    ensures Val(np[..n]) == Val(qp[..n]) * d + r && r < d
    ensures forall k | n <= k < qp.Length :: qp[k] == old(qp[k])
  {
    hide Val;
    r := 0;
    var i := n;
    ghost var quot: seq<Limb>, done: nat := [], 0;
    assert np[..0] == [] && qp[n..n] == [];
    NoLimbs();
    PlaceIs(0, n);
    while i > 0
      invariant 0 <= i <= n && r < d && qp[i..n] == quot && done == Val(quot) * d + r
      invariant Val(np[..n]) == Val(np[..i]) + Place(done, i)
      invariant forall k | n <= k < qp.Length :: qp[k] == old(qp[k])
    {
      i := i - 1;
      var q, next := Divide2By1(np[i], r, d);
      done := LimbStep(np, i, n, quot, d, r, q, next);
      qp[i], r, quot := q, next, [q] + quot;
    }
    assert qp[..n] == qp[0..n];
    PlaceZero(done);
  }

  lemma LimbStep(np: array<Limb>, i: nat, n: nat, quot: seq<Limb>, d: nat, r: nat, q: Limb, next: nat)
    returns (done: nat)
    requires i < n <= np.Length && r * BASE + np[i] == q * d + next
    requires Val(np[..n]) == Val(np[..i + 1]) + Place(Val(quot) * d + r, i + 1)
    ensures done == Val([q] + quot) * d + next && Val(np[..n]) == Val(np[..i]) + Place(done, i)
  {
    hide Val, Place, Pow;
    PrefixOf(np, i);
    ValCons(q, quot);
    LongStep(Val(quot), d, r, np[i], q, next);
    done := Val([q] + quot) * d + next;
    NextPlace(Val(np[..i]), np[i], done, Val(quot) * d + r, i);
  }

  lemma PrefixOf(a: array<Limb>, i: nat)
    requires i < a.Length
    ensures Val(a[..i + 1]) == Val(a[..i]) + Place(a[i], i)
  {
    assert a[..i + 1] == a[..i] + [a[i]];
    ValSnoc(a[..i], a[i]);
  }

  // The schoolbook step.

  /** `div3by2_divider::divide`, by what it is to compute. */
  method Divide3By2(u0: Limb, u1: Limb, u2: Limb, d0: Limb, d1: Limb) returns (q: Limb, rest: nat)
    requires u2 * BASE + u1 < d1 * BASE + d0
    ensures (u2 * BASE + u1) * BASE + u0 == q * (d1 * BASE + d0) + rest && rest < d1 * BASE + d0
  {
    var top: nat, d: nat := u2 * BASE + u1, d1 * BASE + d0;
    q, rest := Divide(top, u0, d);
  }

  /** The top two limbs. */
  function Top(a: seq<Limb>): nat
    requires |a| >= 2
  {
    a[|a| - 1] * BASE + a[|a| - 2]
  }

  /** What the top two limbs say of a number. */
  lemma TopOf(a: seq<Limb>) returns (p: nat, low: nat)
    requires |a| >= 2
    ensures p == Pow(BASE, |a| - 2) > 0 && low == Val(a[..|a| - 2]) < p
    ensures Val(a) == Top(a) * p + low
  {
    p, low := Pow(BASE, |a| - 2), Val(a[..|a| - 2]);
    TopTwo(a);
  }

  lemma HeadCompare(t: nat, u: nat, p: nat, x: nat, y: nat)
    requires y < p && t * p + x < u * p + y
    ensures t <= u
  {
    if t > u { MulLessEq(p, u + 1, t); }
  }

  /** A remainder's top two limbs are not above the divisor's. */
  lemma TopNotAbove(r: seq<Limb>, d: seq<Limb>)
    requires |r| == |d| >= 2 && Val(r) < Val(d)
    ensures Top(r) <= Top(d)
  {
    var p, x := TopOf(r);
    var q, y := TopOf(d);
    HeadCompare(Top(r), Top(d), p, x, y);
  }

  /** If the top two limbs are the divisor's, the largest limb is not too large a quotient. */
  lemma CapNotTooLarge(h: nat, p: nat, b: nat, low: nat, dlow: nat, w: nat, d: nat)
    requires h >= BASE && dlow < p && b == BASE * p && d == h * p + dlow && w == h * b + low
    ensures (BASE - 1) * d <= w
  {
    assert d <= (h + 1) * p;
    MulLessEq(BASE - 1, d, (h + 1) * p);
    assert (BASE - 1) * ((h + 1) * p) == (h * BASE + (BASE - 1 - h)) * p;
    MulLessEq(p, h * BASE + (BASE - 1 - h), h * BASE);
    MulAssoc(h, BASE, p);
  }

  /** A number known up to multiples of m, and known to be below m. */
  lemma SameBelow(x: nat, v: nat, k: int, m: nat)
    requires x == v + k * m && x < m && v < m
    ensures k == 0
  {
    if k >= 1 { MulLessEq(m, 1, k); }
    if k <= -1 { MulLessEq(m, k, -1); }
  }

  /** The guess from the top limbs, before a borrow is looked at. */
  lemma GuessRest(t: nat, q: nat, dd: nat, rest: nat, p: nat, low: nat, dlow: nat, cy: nat, out: nat)
    requires t == q * dd + rest && out - cy * p == low - q * dlow
    ensures (t * p + low) - q * (dd * p + dlow) == (rest - cy) * p + out
  {
    assert t * p == q * dd * p + rest * p;
    assert q * (dd * p + dlow) == q * dd * p + q * dlow;
    assert (rest - cy) * p == rest * p - cy * p;
  }

  lemma GuessExact(k: nat, dd: nat, p: nat, dlow: nat, out: nat)
    requires k < dd && out < p
    ensures k * p + out < dd * p + dlow
  {
    MulLessEq(p, k + 1, dd);
  }

  /** A guess too large is too large by one. */
  lemma GuessOneOff(k: int, dd: nat, p: nat, dlow: nat, out: nat)
    requires 0 - BASE < k < 0 && dd >= BASE && out < p
    ensures 0 - (dd * p + dlow) <= k * p + out < 0
  {
    MulLessEq(p, k, -1);
    MulLessEq(p, 0 - BASE, k);
    MulLessEq(p, BASE, dd);
  }

  // One step: a limb of the quotient, and the remainder with its top limb apart.

  /** The remainder: limbs from place i on, and a top limb kept apart. */
  ghost function Rest(np: array<Limb>, i: nat, m: nat, top: Limb): seq<Limb>
    requires m >= 1 && i + m - 1 <= np.Length
    reads np
  {
    np[i..i + m - 1] + [top]
  }

  /** The quotient limb where the top two limbs are the divisor's: the largest there is. */
  method CapStep(np: array<Limb>, i: nat, dp: array<Limb>, m: nat, top: Limb) returns (q: Limb, next: Limb)
    requires m >= 2 && i + m <= np.Length && m <= dp.Length && np != dp && dp[m - 1] >= 1
    requires top == dp[m - 1] && np[i + m - 1] == dp[m - 2]
    requires Val(np[i..i + m] + [top]) < BASE * Val(dp[..m])
    modifies np
    ensures old(Val(np[i..i + m] + [top])) == q * Val(dp[..m]) + Val(Rest(np, i, m, next))
    ensures Val(Rest(np, i, m, next)) < Val(dp[..m])
    ensures forall k | 0 <= k < np.Length && !(i <= k < i + m) :: np[k] == old(np[k])
  {
    ghost var w, d := np[i..i + m], Val(dp[..m]);
    CapFits(w, dp[..m], top);
    ValBound(dp[..m]);
    q := BASE - 1;
    var cf := SubMulAt(np, i, dp, m, q);
    CapResult(w, np[i..i + m], d, top, cf);
    next := np[i + m - 1];
    assert np[i..i + m] == Rest(np, i, m, next);
  }

  lemma CapFits(w: seq<Limb>, d: seq<Limb>, top: Limb)
    requires |w| == |d| >= 2 && top == d[|d| - 1] >= 1 && w[|w| - 1] == d[|d| - 2]
    ensures (BASE - 1) * Val(d) <= Val(w + [top])
  {
    hide Val;
    var p, dlow := TopOf(d);
    var n := |w| - 1;
    ValSnoc(w, top);
    PrefixPlace(w, n);
    assert w[..n + 1] == w;
    TwoPlaces(top, w[n], n);
    CapNotTooLarge(Top(d), p, Pow(BASE, n), Val(w[..n]), dlow, Val(w + [top]), Val(d));
  }

  lemma CapResult(w: seq<Limb>, out: seq<Limb>, d: nat, top: Limb, cf: Limb)
    requires |w| == |out| && Val(out) - Place(cf, |w|) == Val(w) - d * (BASE - 1)
    requires (BASE - 1) * d <= Val(w + [top]) < BASE * d && d < Pow(BASE, |w|)
    ensures Val(w + [top]) == (BASE - 1) * d + Val(out) && Val(out) < d
  {
    var n := |w|;
    ValSnoc(w, top);
    PlaceIs(cf, n);
    PlaceIs(top, n);
    ValBound(out);
    CapValues(Val(out), Val(w), Val(w + [top]), Pow(BASE, n), cf, top, (BASE - 1) * d, d);
  }

  lemma CapValues(out: nat, x: nat, w: nat, p: nat, c: nat, top: nat, e: nat, d: nat)
    requires out - c * p == x - e && w == x + top * p && e <= w < e + d && d < p && out < p
    ensures w == e + out && out < d
  {
    var rest: nat := w - e;
    var k: int := c - top;
    assert k * p == c * p - top * p;
    SameBelow(out, rest, k, p);
}

  /** What the guess leaves: the remainder, or if there was a borrow the remainder less the divisor. */
  lemma GuessOutcome(w: nat, d: nat, t: nat, dd: nat, p: nat, low: nat, dlow: nat, g: nat, rest: nat, cy: nat, out: nat)
    requires w == t * p + low && d == dd * p + dlow && t == g * dd + rest && rest < dd
    requires out - cy * p == low - g * dlow && out < p && cy < BASE && dd >= BASE
    ensures w == g * d + (rest - cy) * p + out
    ensures if rest >= cy then 0 <= (rest - cy) * p + out < d else g >= 1 && 0 <= d + (rest - cy) * p + out < d
  {
    hide Pow;
    GuessRest(t, g, dd, rest, p, low, dlow, cy, out);
    if rest >= cy {
      GuessExact(rest - cy, dd, p, dlow, out);
    } else {
      GuessOneOff(rest - cy, dd, p, dlow, out);
      assert g == 0 ==> g * d == 0;
    }
  }

  /** A number's value by its low limbs and a pair on top. */
  lemma PairOnTop(low: seq<Limb>, x: Limb, y: Limb)
    ensures Val(low + [x] + [y]) == Val(low) + (y * BASE + x) * Pow(BASE, |low|)
  {
    ValSnoc(low + [x], y);
    ValSnoc(low, x);
    TwoPlaces(y, x, |low|);
  }

  /** The window's value by its top three limbs. */
  lemma TopThree(w: seq<Limb>, top: Limb, n: nat, t: nat)
    requires |w| == n + 2 && t == (top * BASE + w[n + 1]) * BASE + w[n]
    ensures Val(w + [top]) == t * Pow(BASE, n) + Val(w[..n])
  {
    hide Val, Place, Pow;
    ValSnoc(w, top);
    PrefixPlace(w, n);
    PrefixPlace(w, n + 1);
    assert w[..n + 2] == w;
    var h: nat := top * BASE + w[n + 1];
    PlaceUp(top, n + 1);
    PlaceAdd(top * BASE, w[n + 1], n + 1);
    PlaceUp(h, n);
    PlaceAdd(h * BASE, w[n], n);
    PlaceIs(t, n);
  }

  /** Stores the pair on top after the guess: its low limb in place, its high one apart. */
  method StorePair(np: array<Limb>, i: nat, m: nat, t: nat) returns (next: Limb)
    requires m >= 2 && i + m <= np.Length && t < BASE * BASE
    modifies np
    ensures Val(Rest(np, i, m, next)) == old(Val(np[i..i + m - 2])) + t * Pow(BASE, m - 2)
    ensures forall k | 0 <= k < np.Length && k != i + m - 2 :: np[k] == old(np[k])
  {
    hide Val;
    ghost var low := np[i..i + m - 2];
    np[i + m - 2] := t % BASE;
    next := t / BASE;
    PairOnTop(low, t % BASE, next);
    assert Rest(np, i, m, next) == low + [np[i + m - 2]] + [next];
  }

  /** Adds the divisor back, the top limb's carry dropped. */
  method AddBack(np: array<Limb>, i: nat, dp: array<Limb>, m: nat, top: Limb, ghost v: nat) returns (next: Limb)
    requires m >= 2 && i + m <= np.Length && m <= dp.Length && np != dp
    requires Val(Rest(np, i, m, top)) + Val(dp[..m]) == v + BASE * Pow(BASE, m - 1) && v < BASE * Pow(BASE, m - 1)
    modifies np
    ensures Val(Rest(np, i, m, next)) == v
    ensures forall k | 0 <= k < np.Length && !(i <= k < i + m - 1) :: np[k] == old(np[k])
  {
    hide Val, Place, Pow;
    ghost var low, d, dlow: nat := np[i..i + m - 1], Val(dp[..m]), Val(dp[..m - 1]);
    ValSnoc(low, top);
    PrefixOf(dp, m - 1);
    var c := AddcAt(np, np, i, dp, m - 1, 0);
    ghost var out := np[i..i + m - 1];
    ValBound(out);
    next := (top + dp[m - 1] + c) % BASE;
    AddBackTop(Val(out), Val(low), dlow, m - 1, c, top, dp[m - 1], v);
    DropWrap(Val(out), top + dp[m - 1] + c, m - 1, next, v);
    ValSnoc(out, next);
  }

  lemma AddBackTop(out: nat, low: nat, dlow: nat, n: nat, c: nat, top: nat, d1: nat, v: nat)
    requires out + Place(c, n) == low + dlow
    requires low + Place(top, n) + (dlow + Place(d1, n)) == v + BASE * Pow(BASE, n)
    ensures out + Place(top + d1 + c, n) == v + BASE * Pow(BASE, n)
  {
    PlaceAdd(top, d1, n);
    PlaceAdd(top + d1, c, n);
  }

  lemma DropWrap(out: nat, s: nat, n: nat, next: nat, v: nat)
    requires out + Place(s, n) == v + BASE * Pow(BASE, n) && out < Pow(BASE, n) && v < BASE * Pow(BASE, n)
    requires next == s % BASE
    ensures out + Place(next, n) == v
  {
    PlaceIs(s, n);
    PlaceIs(next, n);
    WrappedTop(out, s, Pow(BASE, n), Place(s, n), next, Place(next, n), v);
  }

  lemma WrappedTop(out: nat, s: nat, p: nat, sp: nat, next: nat, np: nat, v: nat)
    requires out < p && v < BASE * p && sp == s * p && np == next * p && out + sp == v + BASE * p
    requires next == s % BASE
    ensures out + np == v
  {
    if s < BASE {
      MulLessEq(p, s + 1, BASE);
    } else if s >= 2 * BASE {
      MulLessEq(p, 2 * BASE, s);
    } else {
      assert next == s - BASE;
      Distribute(p, s, 0 - BASE);
    }
  }

  /** The quotient limb guessed from the top limbs, one less if the rest of the divisor borrows. */
  method GuessStep(np: array<Limb>, i: nat, dp: array<Limb>, m: nat, top: Limb) returns (q: Limb, next: Limb)
    requires m >= 2 && i + m <= np.Length && m <= dp.Length && np != dp && dp[m - 1] >= 1
    requires top * BASE + np[i + m - 1] < dp[m - 1] * BASE + dp[m - 2]
    modifies np
    ensures old(Val(np[i..i + m] + [top])) == q * Val(dp[..m]) + Val(Rest(np, i, m, next))
    ensures Val(Rest(np, i, m, next)) < Val(dp[..m])
    ensures forall k | 0 <= k < np.Length && !(i <= k < i + m) :: np[k] == old(np[k])
  {
    hide Val, Place, Pow;
    ghost var w, d := np[i..i + m], dp[..m];
    var g, rest := Divide3By2(np[i + m - 2], np[i + m - 1], top, dp[m - 2], dp[m - 1]);
    assert w[..m - 2] == np[i..i + m - 2] && d[..m - 2] == dp[..m - 2];
    var cy := SubMulAt(np, i, dp, m - 2, g);
    ghost var v := GuessValues(w, d, top, g, rest, cy, np[i..i + m - 2]);
    q := if rest >= cy then g else g - 1;
    next := FinishGuess(np, i, dp, m, rest - cy, v);
  }

  /** Stores what the guess leaves, and adds the divisor back if that is negative. */
  method FinishGuess(np: array<Limb>, i: nat, dp: array<Limb>, m: nat, x: int, ghost v: nat) returns (next: Limb)
    requires m >= 2 && i + m <= np.Length && m <= dp.Length && np != dp && 0 - BASE < x < BASE * BASE
    requires x >= 0 ==> Val(np[i..i + m - 2]) + x * Pow(BASE, m - 2) == v
    requires x < 0 ==>
      && v < BASE * Pow(BASE, m - 1)
      && Val(np[i..i + m - 2]) + (x + BASE * BASE) * Pow(BASE, m - 2) + Val(dp[..m]) == v + BASE * Pow(BASE, m - 1)
    modifies np
    ensures Val(Rest(np, i, m, next)) == v
    ensures forall k | 0 <= k < np.Length && !(i <= k < i + m) :: np[k] == old(np[k])
  {
    if x >= 0 {
      next := StorePair(np, i, m, x);
    } else {
      next := StorePair(np, i, m, x + BASE * BASE);
      next := AddBack(np, i, dp, m, next, v);
    }
  }

  /** What the guess leaves, in terms of the limbs. */
  lemma GuessValues(w: seq<Limb>, d: seq<Limb>, top: Limb, g: Limb, rest: nat, cy: Limb, out: seq<Limb>)
      returns (v: nat)
    requires |w| == |d| == |out| + 2 && d[|d| - 1] >= 1 && rest < Top(d)
    requires (top * BASE + w[|w| - 1]) * BASE + w[|w| - 2] == g * Top(d) + rest
    requires Val(out) - Place(cy, |out|) == Val(w[..|w| - 2]) - Val(d[..|d| - 2]) * g
    ensures v < Val(d)
    ensures rest >= cy ==> Val(w + [top]) == g * Val(d) + v && Val(out) + (rest - cy) * Pow(BASE, |out|) == v
    ensures rest < cy ==> g >= 1 && Val(w + [top]) == (g - 1) * Val(d) + v && v < BASE * Pow(BASE, |out| + 1)
    ensures rest < cy ==>
      Val(out) + (rest - cy + BASE * BASE) * Pow(BASE, |out|) + Val(d) == v + BASE * Pow(BASE, |out| + 1)
  {
    var n := |out|;
    var t: nat := (top * BASE + w[n + 1]) * BASE + w[n];
    var p, dlow := TopOf(d);
    TopThree(w, top, n, t);
    BelowBase(d);
    BaseUp(n);
    v := GuessLimbs(Val(w + [top]), Val(d), t, Top(d), p, Val(w[..n]), dlow, g, rest, cy, out);
  }

  lemma BaseUp(n: nat)
    ensures Pow(BASE, n + 1) == BASE * Pow(BASE, n)
  {}

  lemma BelowBase(d: seq<Limb>)
    requires d != []
    ensures Val(d) < BASE * Pow(BASE, |d| - 1)
  {
    ValBound(d);
  }

  lemma GuessLimbs(w: nat, d: nat, t: nat, dd: nat, p: nat, low: nat, dlow: nat, g: nat, rest: nat, cy: Limb,
      out: seq<Limb>) returns (v: nat)
    requires w == t * p + low && d == dd * p + dlow && t == g * dd + rest && rest < dd
    requires Val(out) - Place(cy, |out|) == low - dlow * g && p == Pow(BASE, |out|) && dd >= BASE
    ensures v < d
    ensures rest >= cy ==> w == g * d + v && Val(out) + (rest - cy) * p == v
    ensures rest < cy ==> g >= 1 && w == (g - 1) * d + v
    ensures rest < cy ==> Val(out) + (rest - cy + BASE * BASE) * p + d == v + BASE * (BASE * p)
  {
    PlaceIs(cy, |out|);
    ValBound(out);
    v := GuessTotals(w, d, t, dd, p, low, dlow, g, rest, cy, Val(out));
  }

  lemma GuessTotals(w: nat, d: nat, t: nat, dd: nat, p: nat, low: nat, dlow: nat, g: nat, rest: nat, cy: nat, out: nat)
      returns (v: nat)
    requires w == t * p + low && d == dd * p + dlow && t == g * dd + rest && rest < dd
    requires out - cy * p == low - g * dlow && out < p && cy < BASE && dd >= BASE
    ensures v < d
    ensures rest >= cy ==> w == g * d + v && out + (rest - cy) * p == v
    ensures rest < cy ==> g >= 1 && w == (g - 1) * d + v
    ensures rest < cy ==> out + (rest - cy + BASE * BASE) * p + d == v + BASE * (BASE * p)
  {
    GuessOutcome(w, d, t, dd, p, low, dlow, g, rest, cy, out);
    v := GuessLeaves(w, d, p, g, rest - cy, out);
  }

  lemma GuessLeaves(w: nat, d: nat, p: nat, g: nat, x: int, out: nat) returns (v: nat)
    requires w == g * d + x * p + out
    requires if x >= 0 then 0 <= x * p + out < d else g >= 1 && 0 <= d + x * p + out < d
    ensures v < d
    ensures x >= 0 ==> w == g * d + v && out + x * p == v
    ensures x < 0 ==> w == (g - 1) * d + v && out + (x + BASE * BASE) * p + d == v + BASE * (BASE * p)
  {
    v := if x >= 0 then x * p + out else d + x * p + out;
    assert (g - 1) * d == g * d - d;
    assert (x + BASE * BASE) * p == x * p + BASE * (BASE * p);
  }

  /** One limb of the quotient. */
  method QuotientStep(np: array<Limb>, i: nat, dp: array<Limb>, m: nat, top: Limb) returns (q: Limb, next: Limb)
    requires m >= 2 && i + m <= np.Length && m <= dp.Length && np != dp && dp[m - 1] >= 1
    requires Val(Rest(np, i + 1, m, top)) < Val(dp[..m])
    modifies np
    ensures old(np[i] + BASE * Val(Rest(np, i + 1, m, top))) == q * Val(dp[..m]) + Val(Rest(np, i, m, next))
    ensures Val(Rest(np, i, m, next)) < Val(dp[..m])
    ensures forall k | 0 <= k < np.Length && !(i <= k < i + m) :: np[k] == old(np[k])
  {
    hide Val;
    ghost var r := Rest(np, i + 1, m, top);
    TopNotAbove(r, dp[..m]);
    ValCons(np[i], r);
    assert [np[i]] + r == np[i..i + m] + [top];
    if top == dp[m - 1] && np[i + m - 1] == dp[m - 2] {
      q, next := CapStep(np, i, dp, m, top);
    } else {
      q, next := GuessStep(np, i, dp, m, top);
    }
  }

  /** What is divided so far: the remainder, and the quotient's limbs from place i on, with qh on top. */
  ghost predicate Divided(u: nat, low: seq<Limb>, rest: seq<Limb>, d: nat, quot: seq<Limb>, qh: nat) {
    u == Val(low) + Place(Combined(Val(rest), d, Whole(quot, qh)), |low|)
  }

  /** The quotient's limbs with qh on top. */
  ghost function Whole(quot: seq<Limb>, qh: nat): nat {
    Val(quot) + Place(qh, |quot|)
  }

  ghost function Combined(rest: nat, d: nat, q: nat): nat {
    rest + d * q
  }

  lemma WholeMore(q: Limb, quot: seq<Limb>, qh: nat)
    ensures Whole([q] + quot, qh) == q + BASE * Whole(quot, qh)
  {
    ValCons(q, quot);
    assert Place(qh, |quot| + 1) == BASE * Place(qh, |quot|);
  }

  lemma DividedMore(u: nat, low: seq<Limb>, rest: seq<Limb>, d: nat, quot: seq<Limb>, qh: nat, q: Limb, next: seq<Limb>)
    requires low != [] && Divided(u, low, rest, d, quot, qh)
    requires low[|low| - 1] + BASE * Val(rest) == q * d + Val(next)
    ensures Divided(u, low[..|low| - 1], next, d, [q] + quot, qh)
  {
    hide Val;
    var i := |low| - 1;
    WholeMore(q, quot, qh);
    PrefixPlace(low, i);
    assert low[..i + 1] == low;
    DividedStep(Val(low[..i]), low[i], i, Val(rest), d, Whole(quot, qh), q, Val(next), Whole([q] + quot, qh));
  }

  lemma DividedStep(low: nat, x: nat, i: nat, rest: nat, d: nat, whole: nat, q: nat, next: nat, more: nat)
    requires x + BASE * rest == q * d + next && more == q + BASE * whole
    ensures low + Place(x, i) + Place(Combined(rest, d, whole), i + 1) == low + Place(Combined(next, d, more), i)
  {
    CombinedStep(x, rest, d, whole, q, next, more);
    NextPlace(low, x, Combined(next, d, more), Combined(rest, d, whole), i);
  }

  lemma CombinedStep(x: nat, rest: nat, d: nat, whole: nat, q: nat, next: nat, more: nat)
    requires x + BASE * rest == q * d + next && more == q + BASE * whole
    ensures Combined(next, d, more) == x + BASE * Combined(rest, d, whole)
  {
    assert d * (q + BASE * whole) == q * d + BASE * (d * whole);
  }

  /** The first limb of the quotient, one or nothing, as the divisor's top bit is set. */
  method FirstQuotient(np: array<Limb>, at: nat, dp: array<Limb>, m: nat) returns (qh: nat)
    requires 2 <= m && at + m <= np.Length && m <= dp.Length && np != dp && dp[m - 1] >= TOP_BIT
    modifies np
    ensures qh <= 1 && old(Val(np[at..at + m])) == Val(np[at..at + m]) + Val(dp[..m]) * qh
    ensures Val(np[at..at + m]) < Val(dp[..m])
    ensures forall k | 0 <= k < np.Length && !(at <= k < at + m) :: np[k] == old(np[k])
  {
    AtLeastHalf(np[at..at + m], dp[..m]);
    var ord := CompareAt(np, at, dp, m);
    qh := if ord >= 0 then 1 else 0;
    if qh != 0 {
      ghost var rest: nat := Val(np[at..at + m]) - Val(dp[..m]);
      var cf := SubcAt(np, np, at, dp, m, 0);
      NoBorrow(np[at..at + m], cf, rest);
    }
  }

  lemma AtLeastHalf(w: seq<Limb>, d: seq<Limb>)
    requires |w| == |d| >= 1 && d[|d| - 1] >= TOP_BIT
    ensures Val(w) < 2 * Val(d)
  {
    var n := |d| - 1;
    ValBound(w);
    PrefixPlace(d, n);
    assert d[..n + 1] == d;
    PlaceIs(d[n], n);
    BaseUp(n);
    MoreThanHalf(Val(w), Val(d), Val(d[..n]), d[n], Pow(BASE, n));
  }

  lemma MoreThanHalf(w: nat, d: nat, low: nat, top: nat, p: nat)
    requires d == low + top * p && top >= TOP_BIT && w < BASE * p
    ensures w < 2 * d
  {
    MulLessEq(p, TOP_BIT, top);
  }

  /** `reverse_compare_n` from place `at` of a on. */
  method CompareAt(a: array<Limb>, at: nat, b: array<Limb>, n: nat) returns (ord: int)
    requires at + n <= a.Length && n <= b.Length
    ensures ord >= 0 <==> Val(a[at..at + n]) >= Val(b[..n])
  {
    ghost var x, y := a[at..at + n], b[..n];
    var i := n;
    while i > 0 && a[at + i - 1] == b[i - 1]
      invariant 0 <= i <= n && forall k | i <= k < n :: x[k] == y[k]
    {
      assert x[i - 1] == y[i - 1];
      i := i - 1;
    }
    assert i > 0 ==> x[i - 1] == a[at + i - 1] && y[i - 1] == b[i - 1];
    HighestDecides(x, y, i);
    ord := if i == 0 then 0 else if a[at + i - 1] < b[i - 1] then -1 else 1;
  }

  /** The loop of `sb_div_qr_s`, from the top of the quotient down. */
  method DivisionLoop(qp: array<Limb>, np: array<Limb>, k: nat, dp: array<Limb>, m: nat, top0: Limb, ghost u: nat,
      ghost qh: nat) returns (top: Limb)
    requires m >= 2 && k + m <= np.Length && m <= dp.Length && k <= qp.Length && dp[m - 1] >= 1
    requires qp != np && qp != dp && np != dp && DividedAt(u, np, k, m, top0, Val(dp[..m]), qp, k, qh)
    modifies qp, np
    ensures DividedAt(u, np, 0, m, top, Val(dp[..m]), qp, k, qh)
    ensures forall j | k <= j < qp.Length :: qp[j] == old(qp[j])
  {
    var i := k;
    top := top0;
    while i > 0
      invariant 0 <= i <= k && DividedAt(u, np, i, m, top, Val(dp[..m]), qp, k, qh)
      invariant forall j | k <= j < qp.Length :: qp[j] == old(qp[j])
    {
      i := i - 1;
      top := DivisionStep(qp, np, i, dp, m, top, k, u, qh);
    }
  }

  /** `sb_div_qr_s`: the quotient's k limbs with qh on top, and the remainder in the low m limbs of np. */
  method SbDivQr(qp: array<Limb>, np: array<Limb>, k: nat, dp: array<Limb>, m: nat) returns (qh: nat)
    requires m >= 2 && k + m <= np.Length && m <= dp.Length && k <= qp.Length && dp[m - 1] >= TOP_BIT
    requires qp != np && qp != dp && np != dp
    modifies qp, np
    ensures qh <= 1 && Val(np[..m]) < Val(dp[..m])
    ensures old(Val(np[..k + m])) == Combined(Val(np[..m]), Val(dp[..m]), Whole(qp[..k], qh))
    ensures forall j | k <= j < qp.Length :: qp[j] == old(qp[j])
  {
    ghost var u := Val(np[..k + m]);
    ValRange(np, k, k + m);
    var top;
    qh, top := FirstStep(qp, np, k, dp, m, u);
    top := DivisionLoop(qp, np, k, dp, m, top, u, qh);
    DividedAll(u, Rest(np, 0, m, top), Val(dp[..m]), qp[0..k], qh);
    StoreTopLimb(np, m, top);
    assert qp[..k] == qp[0..k] && np[..0] == [];
  }

  method FirstStep(qp: array<Limb>, np: array<Limb>, k: nat, dp: array<Limb>, m: nat, ghost u: nat)
      returns (qh: nat, top: Limb)
    requires m >= 2 && k + m <= np.Length && m <= dp.Length && k <= qp.Length && dp[m - 1] >= TOP_BIT
    requires qp != np && np != dp && u == Val(np[..k]) + Place(Val(np[k..k + m]), k)
    modifies np
    ensures qh <= 1 && DividedAt(u, np, k, m, top, Val(dp[..m]), qp, k, qh)
  {
    ghost var low, d := np[..k], Val(dp[..m]);
    qh := FirstQuotient(np, k, dp, m);
    top := np[k + m - 1];
    assert np[..k] == low && np[k..k + m] == Rest(np, k, m, top) && qp[k..k] == [];
    FirstDivided(u, low, Rest(np, k, m, top), d, qh);
  }

  method StoreTopLimb(np: array<Limb>, m: nat, top: Limb)
    requires 1 <= m <= np.Length
    modifies np
    ensures np[..m] == old(Rest(np, 0, m, top))
  {
    np[m - 1] := top;
  }

  lemma FirstDivided(u: nat, low: seq<Limb>, rest: seq<Limb>, d: nat, qh: nat)
    requires u == Val(low) + Place(Val(rest) + d * qh, |low|)
    ensures Divided(u, low, rest, d, [], qh)
  {}

  lemma DividedAll(u: nat, rest: seq<Limb>, d: nat, quot: seq<Limb>, qh: nat)
    requires Divided(u, [], rest, d, quot, qh)
    ensures u == Combined(Val(rest), d, Whole(quot, qh))
  {}

  /** The quotient is in qp from place i to k, and the remainder smaller than the divisor. */
  ghost predicate DividedAt(u: nat, np: array<Limb>, i: nat, m: nat, top: Limb, d: nat, qp: array<Limb>, k: nat,
      qh: nat)
    requires m >= 1 && i + m - 1 <= np.Length && i <= k <= qp.Length
    reads np, qp
  {
    Divided(u, np[..i], Rest(np, i, m, top), d, qp[i..k], qh) && Val(Rest(np, i, m, top)) < d
  }

  method DivisionStep(qp: array<Limb>, np: array<Limb>, i: nat, dp: array<Limb>, m: nat, top: Limb, k: nat,
      ghost u: nat, ghost qh: nat) returns (next: Limb)
    requires m >= 2 && i + m <= np.Length && m <= dp.Length && i < k <= qp.Length && dp[m - 1] >= 1
    requires qp != np && qp != dp && np != dp
    requires DividedAt(u, np, i + 1, m, top, Val(dp[..m]), qp, k, qh)
    modifies qp, np
    ensures DividedAt(u, np, i, m, next, Val(dp[..m]), qp, k, qh)
    ensures forall j | k <= j < qp.Length :: qp[j] == old(qp[j])
  {
    ghost var low, rest, quot := np[..i + 1], Rest(np, i + 1, m, top), qp[i + 1..k];
    var q;
    q, next := QuotientStep(np, i, dp, m, top);
    DividedMore(u, low, rest, Val(dp[..m]), quot, qh, q, Rest(np, i, m, next));
    qp[i] := q;
    assert low[..i] == np[..i] && qp[i..k] == [q] + quot;
  }

  // Division of any two numbers.

  /** The top limb and the limbs below it. */
  lemma TopLimb(a: seq<Limb>) returns (p: nat, low: nat)
    requires a != []
    ensures p == Pow(BASE, |a| - 1) > 0 && low < p && Val(a) == a[|a| - 1] * p + low
  {
    var n := |a| - 1;
    p, low := Pow(BASE, n), Val(a[..n]);
    PrefixPlace(a, n);
    assert a[..n + 1] == a;
    PlaceIs(a[n], n);
    ValBound(a[..n]);
    PowPositive(BASE, n);
  }

  /** A limb that may be shifted leaves room for all bits below it. */
  lemma ShiftRoom(x: nat, shift: nat, t: nat)
    requires shift <= 64 && t == Pow(2, shift) && x * t < BASE
    ensures t > 0 && (x + 1) * t <= BASE
  {
    BaseIsTwoTo64();
    PowPositive(2, shift);
    PowAdd(2, 64 - shift, shift);
    NextMultiple(x, t, Pow(2, 64 - shift), BASE);
  }

  lemma NextMultiple(x: nat, t: nat, k: nat, m: nat)
    requires t > 0 && m == k * t && x * t < m
    ensures (x + 1) * t <= m
  {
    MulCompare(t, x, k);
    MulLessEq(t, x + 1, k);
  }

  /** What shifting a number does whose top limb may be shifted. */
  lemma ShiftedBounds(x: nat, p: nat, low: nat, v: nat, t: nat)
    requires v == x * p + low && low < p && t > 0 && (x + 1) * t <= BASE
    ensures x * t * p <= v * t < BASE * p
  {
    MulLess(t, v, (x + 1) * p);
    MulLessEq(t, x * p, v);
    MulLessEq(p, (x + 1) * t, BASE);
    assert (x + 1) * p * t == (x + 1) * t * p && x * p * t == x * t * p;
  }

  lemma TopAtLeast(a: seq<Limb>, x: nat)
    requires a != [] && x * Pow(BASE, |a| - 1) <= Val(a)
    ensures a[|a| - 1] >= x
  {
    var p, low := TopLimb(a);
    HeadAtLeast(x, a[|a| - 1], p, low);
  }

  lemma HeadAtLeast(x: nat, top: nat, p: nat, low: nat)
    requires low < p && x * p <= top * p + low
    ensures x <= top
  {
    if top < x { MulLessEq(p, top + 1, x); }
  }

  /** `lshift_n` of the divisor, so that its top bit is set. */
  method ShiftDivisor(dp: array<Limb>, m: nat, shift: nat) returns (dq: array<Limb>)
    requires 1 <= m <= dp.Length && shift < 64 && TOP_BIT <= dp[m - 1] * Pow(2, shift) < BASE
    ensures fresh(dq) && dq.Length == m && dq[m - 1] >= TOP_BIT
    ensures Val(dq[..m]) == Val(dp[..m]) * Pow(2, shift)
  {
    dq := new Limb[m];
    ShiftRoom(dp[m - 1], shift, Pow(2, shift));
    ShiftIsLimb(shift);
    ghost var p, low := TopLimb(dp[..m]);
    ShiftedBounds(dp[m - 1], p, low, Val(dp[..m]), Pow(2, shift));
    assert dp[0..m] == dp[..m];
    var cf := Mul1(dq, dp, 0, m, Pow(2, shift));
    assert dq[0..m] == dq[..m];
    NoCarry(dq[..m], cf, Val(dp[..m]) * Pow(2, shift), p);
    MulLessEq(p, TOP_BIT, dp[m - 1] * Pow(2, shift));
    TopAtLeast(dq[..m], TOP_BIT);
  }

  /** A number that fits into the limbs leaves no carry. */
  lemma NoCarry(out: seq<Limb>, cf: nat, v: nat, p: nat)
    requires out != [] && Val(out) + Place(cf, |out|) == v < BASE * p && p == Pow(BASE, |out| - 1)
    ensures cf == 0 && Val(out) == v
  {
    BaseUp(|out| - 1);
    NothingAbove(cf, |out|);
  }

  /** `lshift_n` of the numerator, with the carry in a limb more. */
  method ShiftNumerator(np: array<Limb>, n: nat, shift: nat) returns (sp: array<Limb>)
    requires 1 <= n <= np.Length && shift < 64
    ensures fresh(sp) && sp.Length == n + 1 && Val(sp[..n + 1]) == Val(np[..n]) * Pow(2, shift)
  {
    sp := new Limb[n + 1];
    ShiftIsLimb(shift);
    assert np[0..n] == np[..n];
    var cf := Mul1(sp, np, 0, n, Pow(2, shift));
    assert sp[0..n] == sp[..n];
    StoreTop(sp, n, cf);
  }

  /** The quotient has k limbs. */
  lemma QuotientLimbs(u: seq<Limb>, d: seq<Limb>, k: nat)
    requires 1 <= |d| <= |u| && d[|d| - 1] != 0
    requires k == |u| - |d| + (if u[|u| - 1] >= d[|d| - 1] then 1 else 0)
    ensures Val(u) < Pow(BASE, k) * Val(d)
  {
    var p, low := TopLimb(d);
    PowAdd(BASE, k, |d| - 1);
    if u[|u| - 1] >= d[|d| - 1] {
      ValBound(u);
      ValTop(d);
      MulLessEq(Pow(BASE, k), p, Val(d));
    } else {
      var b, rest := TopLimb(u);
      HeadsProduct(u[|u| - 1], b, rest, d[|d| - 1], Pow(BASE, k), p, low);
    }
  }

  lemma HeadsProduct(x: nat, b: nat, rest: nat, y: nat, w: nat, p: nat, low: nat)
    requires x < y && rest < b && b == w * p
    ensures x * b + rest < w * (y * p + low)
  {
    MulLessEq(b, x + 1, y);
    assert w * (y * p + low) == y * (w * p) + w * low;
  }

  lemma ShiftedQuotient(u: nat, d: nat, t: nat, rem: nat, q: nat, top: nat, b: nat, x: nat, r: nat)
    requires t > 0 && u * t == Combined(rem, d * t, q + top) && rem < d * t && u < b * d
    requires (top == 0 || top >= b) && rem == x * t + r && r < t
    ensures top == 0 && d > 0 && u / d == q && u % d == x
  {
    var w: nat := q + top;
    FactorOut(u, d, t, w, x, r);
    ExactQuotient(u - d * w, t, x, r);
    if top > 0 { MulLessEq(d, b, w); }
    if d <= x { MulLessEq(t, d, x); }
    DivModIs(u, d, q, x);
  }

  lemma FactorOut(u: nat, d: nat, t: nat, w: nat, x: nat, r: nat)
    requires u * t == x * t + r + d * t * w
    ensures (u - d * w) * t == x * t + r
  {
    assert d * t * w == d * w * t;
  }

  lemma ExactQuotient(v: int, t: nat, x: nat, r: nat)
    requires t > 0 && r < t && v * t == x * t + r
    ensures v == x && r == 0
  {
    var k := v - x;
    assert k * t == r;
    if k >= 1 { MulLessEq(t, 1, k); }
    if k <= -1 { MulLessEq(t, k, -1); }
  }

  /** `div_qr_s`: quotient of n - m + 1 limbs, remainder of m. */
  method DivQrS(qp: array<Limb>, rp: array<Limb>, np: array<Limb>, n: nat, dp: array<Limb>, m: nat)
    requires 1 <= m <= n <= np.Length && m <= dp.Length && dp[m - 1] != 0
    requires n - m + 1 <= qp.Length && m <= rp.Length && qp != rp && qp != np && qp != dp && rp != np && rp != dp
    modifies qp, rp
    ensures Val(dp[..m]) > 0
    ensures Val(qp[..n - m + 1]) == Val(np[..n]) / Val(dp[..m])
    ensures Val(rp[..m]) == Val(np[..n]) % Val(dp[..m])
  {
    ValTop(dp[..m]);
    if m == 1 {
      OneLimb(dp);
      var r := DivBy1(qp, np, n, dp[0]);
      rp[0] := r;
      OneLimb(rp);
      DivModIs(Val(np[..n]), dp[0], Val(qp[..n]), r);
    } else {
      DivLong(qp, rp, np, n, dp, m);
    }
  }

  lemma OneLimb(a: array<Limb>)
    requires a.Length >= 1
    ensures Val(a[..1]) == a[0]
  {
    PrefixOf(a, 0);
    assert a[..0] == [];
  }

  /** `_div_qr_s_impl`: both numbers shifted, divided by the schoolbook, and the remainder shifted back. */
  method DivLong(qp: array<Limb>, rp: array<Limb>, np: array<Limb>, n: nat, dp: array<Limb>, m: nat)
    requires 2 <= m <= n <= np.Length && m <= dp.Length && dp[m - 1] != 0
    requires n - m + 1 <= qp.Length && m <= rp.Length && qp != rp && qp != np && qp != dp && rp != np && rp != dp
    modifies qp, rp
    ensures Val(dp[..m]) > 0
    ensures Val(qp[..n - m + 1]) == Val(np[..n]) / Val(dp[..m])
    ensures Val(rp[..m]) == Val(np[..n]) % Val(dp[..m])
  {
    hide Val;
    var k := n - m + (if np[n - 1] >= dp[m - 1] then 1 else 0);
    qp[n - m] := 0;
    var shift := Clz(dp[m - 1]);
    ClzNormalizes(dp[m - 1]);
    var dq := ShiftDivisor(dp, m, shift);
    var sp := ShiftNumerator(np, n, shift);
    QuotientLimbs(np[..n], dp[..m], k);
    ShiftIsLimb(shift);
    NumeratorFits(Val(np[..n]), Val(dp[..m]), Pow(2, shift), dq[..m], sp[..n + 1], k);
    assert sp[..n + 1][..k + m] == sp[..k + m];
    DivShifted(qp, rp, sp, k, dq, m, Pow(2, shift), np[..n], dp[..m]);
    if k == n - m { StoredZero(qp, k); }
  }

  /** Divides the shifted numbers, and shifts the remainder back by `rshift_n`. */
  method DivShifted(qp: array<Limb>, rp: array<Limb>, sp: array<Limb>, k: nat, dq: array<Limb>, m: nat, t: Limb,
      ghost u: seq<Limb>, ghost d: seq<Limb>)
    requires 2 <= m && k + m <= sp.Length && m <= dq.Length && k <= qp.Length && m <= rp.Length
    requires dq[m - 1] >= TOP_BIT && qp != rp && qp != sp && qp != dq && rp != sp && rp != dq && sp != dq
    requires t > 0 && Val(sp[..k + m]) == Val(u) * t && Val(dq[..m]) == Val(d) * t && Val(u) < Pow(BASE, k) * Val(d)
    modifies qp, rp, sp
    ensures Val(d) > 0 && Val(qp[..k]) == Val(u) / Val(d) && Val(rp[..m]) == Val(u) % Val(d)
    ensures forall j | k <= j < qp.Length :: qp[j] == old(qp[j])
  {
    var qh := SbDivQr(qp, sp, k, dq, m);
    ghost var rem, quot := Val(sp[..m]), qp[..k];
    var r := DivBy1(rp, sp, m, t);
    assert qp[..k] == quot;
    QuotientIs(u, d, t, rem, quot, qh, rp[..m], r);
  }

  /** The shifted numerator fits into as many limbs as the divisor and the quotient have. */
  lemma NumeratorFits(u: nat, d: nat, t: nat, dq: seq<Limb>, s: seq<Limb>, k: nat)
    requires |s| - 1 <= k + |dq| <= |s| && s != [] && Val(s) == u * t && Val(dq) == d * t && t > 0
    requires u < Pow(BASE, k) * d
    ensures Val(s[..k + |dq|]) == u * t
  {
    hide *;
    ValBound(dq);
    PowAdd(BASE, k, |dq|);
    ShiftedBelow(u, d, t, Pow(BASE, k), Pow(BASE, |dq|));
    if k + |dq| < |s| {
      var p, low := TopLimb(s);
      if s[|s| - 1] > 0 { MulLessEq(p, 1, s[|s| - 1]); }
      assert s[..|s| - 1] == s[..k + |dq|];
      DropTop(s);
    } else {
      assert s[..|s|] == s;
    }
  }

  lemma ShiftedBelow(u: nat, d: nat, t: nat, b: nat, p: nat)
    requires u < b * d && d * t < p && t > 0
    ensures u * t <= b * p && (b > 0 ==> u * t < b * p)
  {
    MulLess(t, u, b * d);
    MulLessEq(b, d * t, p);
    MulAssoc(b, d, t);
    if b > 0 { MulLess(b, d * t, p); }
  }

  lemma DropTop(s: seq<Limb>)
    requires s != [] && s[|s| - 1] == 0
    ensures Val(s[..|s| - 1]) == Val(s)
  {
    PlaceIs(0, |s| - 1);
  }

  lemma StoredZero(a: array<Limb>, k: nat)
    requires k < a.Length && a[k] == 0
    ensures Val(a[..k + 1]) == Val(a[..k])
  {
    PrefixOf(a, k);
    PlaceIs(0, k);
  }

  lemma QuotientIs(u: seq<Limb>, d: seq<Limb>, t: nat, rem: nat, quot: seq<Limb>, qh: nat, x: seq<Limb>, r: nat)
    requires t > 0 && Val(u) * t == Combined(rem, Val(d) * t, Whole(quot, qh)) && rem < Val(d) * t
    requires Val(u) < Pow(BASE, |quot|) * Val(d) && rem == Val(x) * t + r && r < t
    ensures Val(d) > 0 && Val(u) / Val(d) == Val(quot) && Val(u) % Val(d) == Val(x)
  {
    hide Val;
    NothingAbove(qh, |quot|);
    ShiftedQuotient(Val(u), Val(d), t, rem, Val(quot), Place(qh, |quot|), Pow(BASE, |quot|), Val(x), r);
  }
}
