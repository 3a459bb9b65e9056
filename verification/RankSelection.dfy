/** Selection of many ranks at once, in place, by splitting the list of ranks in the middle. */
module RankSelection {

  predicate Ascending(s: seq<int>) {
    forall j, k | 0 <= j <= k < |s| :: s[j] <= s[k]
  }

  /** In the range from lo to hi, nothing before s[r] is greater and nothing after it less. */
  predicate SplitsAt(s: seq<int>, lo: nat, r: nat, hi: nat) {
    && lo <= r < hi <= |s|
    && (forall k | lo <= k < r :: s[k] <= s[r])
    && (forall k | r <= k < hi :: s[r] <= s[k])
  }

  /** Only the range from lo to hi is rearranged. */
  ghost predicate Rearranged(s: seq<int>, t: seq<int>, lo: nat, hi: nat) {
    && lo <= hi <= |s| == |t|
    && multiset(s[lo..hi]) == multiset(t[lo..hi])
    && forall k | 0 <= k < lo || hi <= k < |s| :: s[k] == t[k]
  }

  lemma MemberBefore(s: seq<int>, t: seq<int>, k: nat) returns (j: nat)
    requires multiset(s) == multiset(t) && k < |t|
    ensures j < |s| && s[j] == t[k]
  {
    assert t[k] in multiset(t);
    assert t[k] in s;
    j :| 0 <= j < |s| && s[j] == t[k];
  }

  /** Whatever is in the rearranged range was in it before. */
  lemma CameFrom(s: seq<int>, t: seq<int>, lo: nat, hi: nat, k: nat) returns (j: nat)
    requires Rearranged(s, t, lo, hi) && lo <= k < hi
    ensures lo <= j < hi && s[j] == t[k]
  {
    j := MemberBefore(s[lo..hi], t[lo..hi], k - lo);
    j := j + lo;
  }

  lemma SwapRearranges(s: seq<int>, i: nat, j: nat, lo: nat, hi: nat)
    requires lo <= i < hi <= |s| && lo <= j < hi
    ensures Rearranged(s, s[i := s[j]][j := s[i]], lo, hi)
  {
    var t, r := s[i := s[j]][j := s[i]], s[lo..hi];
    assert t[lo..hi] == r[i - lo := r[j - lo]][j - lo := r[i - lo]];
  }

  method Swap(a: array<int>, i: nat, j: nat, ghost lo: nat, ghost hi: nat)
    requires lo <= i < hi <= a.Length && lo <= j < hi
    modifies a
    ensures a[..] == old(a[..])[i := old(a[j])][j := old(a[i])] && Rearranged(old(a[..]), a[..], lo, hi)
  {
    SwapRearranges(a[..], i, j, lo, hi);
    a[i], a[j] := a[j], a[i];
  }

  /** `std::min_element` */
  method MinElement(a: array<int>, lo: nat, hi: nat) returns (m: nat)
    requires lo < hi <= a.Length
    ensures lo <= m < hi && forall k | lo <= k < hi :: a[m] <= a[k]
  {
    m := lo;
    for i := lo + 1 to hi
      invariant lo <= m < hi && forall k | lo <= k < i :: a[m] <= a[k]
    {
      if a[i] < a[m] { m := i; }
    }
  }

  /** `std::max_element` */
  method MaxElement(a: array<int>, lo: nat, hi: nat) returns (m: nat)
    requires lo < hi <= a.Length
    ensures lo <= m < hi && forall k | lo <= k < hi :: a[k] <= a[m]
  {
    m := lo;
    for i := lo + 1 to hi
      invariant lo <= m < hi && forall k | lo <= k < i :: a[k] <= a[m]
    {
      if a[m] < a[i] { m := i; }
    }
  }

  /** `std::nth_element`, by repeated selection of the least. */
  method NthElement(a: array<int>, lo: nat, nth: nat, hi: nat)
    requires lo <= nth < hi <= a.Length
    modifies a
    ensures Rearranged(old(a[..]), a[..], lo, hi) && SplitsAt(a[..], lo, nth, hi)
  {
    var i := lo;
    while i <= nth
      invariant lo <= i <= nth + 1 && Rearranged(old(a[..]), a[..], lo, hi)
      invariant forall j, k | lo <= j < i && j <= k < hi :: a[j] <= a[k]
    {
      var m := MinElement(a, i, hi);
      Swap(a, i, m, lo, hi);
      i := i + 1;
    }
  }

  /** Puts one rank in its place: an end of the range by least or greatest element. */
  method SelectRank(a: array<int>, lo: nat, rank: nat, hi: nat)
    requires lo <= rank < hi <= a.Length
    modifies a
    ensures Rearranged(old(a[..]), a[..], lo, hi) && SplitsAt(a[..], lo, rank, hi)
  {
    if rank == lo {
      var m := MinElement(a, lo, hi);
      Swap(a, rank, m, lo, hi);
    } else if rank + 1 == hi {
      var m := MaxElement(a, lo, hi);
      Swap(a, rank, m, lo, hi);
    } else {
      NthElement(a, lo, rank, hi);
    }
  }

  predicate AscendingRanks(s: seq<nat>) {
    forall j, k | 0 <= j <= k < |s| :: s[j] <= s[k]
  }

  /** `std::lower_bound` */
  method LowerBound(s: seq<nat>, x: nat) returns (i: nat)
    requires AscendingRanks(s)
    ensures i <= |s| && (forall k | 0 <= k < i :: s[k] < x) && (forall k | i <= k < |s| :: x <= s[k])
  {
    i := 0;
    while i < |s| && s[i] < x
      invariant i <= |s| && forall k | 0 <= k < i :: s[k] < x
    {
      i := i + 1;
    }
  }

  /** `std::upper_bound` */
  method UpperBound(s: seq<nat>, x: nat) returns (i: nat)
    requires AscendingRanks(s)
    ensures i <= |s| && (forall k | 0 <= k < i :: s[k] <= x) && (forall k | i <= k < |s| :: x < s[k])
  {
    i := 0;
    while i < |s| && s[i] <= x
      invariant i <= |s| && forall k | 0 <= k < i :: s[k] <= x
    {
      i := i + 1;
    }
  }

  predicate AllSplit(s: seq<int>, lo: nat, hi: nat, ranks: seq<nat>) {
    forall i | 0 <= i < |ranks| :: SplitsAt(s, lo, ranks[i], hi)
  }

  /** Nothing below first is greater than anything from first on. */
  predicate Separated(s: seq<int>, lo: nat, first: nat, hi: nat) {
    && lo <= first <= hi <= |s|
    && forall k, m | lo <= k < first <= m < hi :: s[k] <= s[m]
  }

  /** Separation survives rearranging the upper part. */
  lemma SeparatedKept(s: seq<int>, t: seq<int>, lo: nat, first: nat, hi: nat)
    requires Separated(s, lo, first, hi) && Rearranged(s, t, first, hi)
    ensures Separated(t, lo, first, hi)
  {
    forall k, m | lo <= k < first <= m < hi ensures t[k] <= t[m] {
      var j := CameFrom(s, t, first, hi, m);
      assert s[k] <= s[j];
    }
  }

  /** A rank in place below stays in place. */
  lemma SplitKept(s: seq<int>, t: seq<int>, lo: nat, r: nat, first: nat, hi: nat)
    requires SplitsAt(s, lo, r, hi) && r < first && Rearranged(s, t, first, hi)
    ensures SplitsAt(t, lo, r, hi)
  {
    forall k | r <= k < hi ensures t[r] <= t[k] {
      if k >= first {
        var j := CameFrom(s, t, first, hi, k);
        assert s[r] <= s[j];
      }
    }
  }

  /** A rank in place stays so when what is before it is rearranged. */
  lemma SplitAbove(s: seq<int>, t: seq<int>, lo: nat, r: nat, hi: nat)
    requires SplitsAt(s, lo, r, hi) && Rearranged(s, t, lo, r)
    ensures SplitsAt(t, lo, r, hi)
  {
    forall k | lo <= k < r ensures t[k] <= t[r] {
      var j := CameFrom(s, t, lo, r, k);
      assert s[j] <= s[r];
    }
  }

  /** In place in the middle of a range that is split on both sides is in place in all of it. */
  lemma SplitWidens(s: seq<int>, lo: nat, first: nat, r: nat, rank: nat, hi: nat)
    requires Separated(s, lo, first, hi) && SplitsAt(s, first, rank, hi)
    requires r == rank || SplitsAt(s, first, r, rank)
    ensures SplitsAt(s, lo, r, hi)
  {}

  lemma SeparatedAfter(s: seq<int>, lo: nat, first: nat, rank: nat, hi: nat)
    requires Separated(s, lo, first, hi) && SplitsAt(s, first, rank, hi)
    ensures Separated(s, lo, rank + 1, hi)
  {
    forall k, m | lo <= k < rank + 1 <= m < hi ensures s[k] <= s[m] {
      if k >= first { assert s[k] <= s[rank] <= s[m]; }
    }
  }

  lemma RearrangedWider(s: seq<int>, t: seq<int>, lo: nat, hi: nat, lo': nat, hi': nat)
    requires Rearranged(s, t, lo, hi) && lo' <= lo && hi <= hi' <= |s|
    ensures Rearranged(s, t, lo', hi')
  {
    assert s[lo'..hi'] == s[lo'..lo] + s[lo..hi] + s[hi..hi'];
    assert t[lo'..hi'] == t[lo'..lo] + t[lo..hi] + t[hi..hi'];
    assert s[lo'..lo] == t[lo'..lo] && s[hi..hi'] == t[hi..hi'];
  }

  /** The ranks below first are in place, and the rest is separated from them. */
  predicate Done(s: seq<int>, lo: nat, first: nat, hi: nat, ranks: seq<nat>) {
    && Separated(s, lo, first, hi)
    && AllSplit(s, lo, hi, ranks)
    && forall i | 0 <= i < |ranks| :: ranks[i] < first
  }

  lemma DoneKept(s: seq<int>, t: seq<int>, lo: nat, first: nat, hi: nat, ranks: seq<nat>)
    requires Done(s, lo, first, hi, ranks) && Rearranged(s, t, first, hi)
    ensures Done(t, lo, first, hi, ranks)
  {
    SeparatedKept(s, t, lo, first, hi);
    forall i | 0 <= i < |ranks| ensures SplitsAt(t, lo, ranks[i], hi) {
      SplitKept(s, t, lo, ranks[i], first, hi);
    }
  }

  /** With a rank in place, and others below it, what is done extends to the rank. */
  lemma DoneMore(s: seq<int>, lo: nat, first: nat, rank: nat, hi: nat, ranks: seq<nat>, more: seq<nat>)
    requires Done(s, lo, first, hi, ranks) && SplitsAt(s, first, rank, hi)
    requires forall i | 0 <= i < |more| :: more[i] == rank || SplitsAt(s, first, more[i], rank)
    ensures Done(s, lo, rank + 1, hi, ranks + more)
  {
    SeparatedAfter(s, lo, first, rank, hi);
    forall i | 0 <= i < |more| ensures SplitsAt(s, lo, more[i], hi) {
      SplitWidens(s, lo, first, more[i], rank, hi);
    }
  }

  /** Ranks from `from` on, all at least first. */
  predicate RanksFrom(ranks: seq<nat>, from: nat, first: nat) {
    from <= |ranks| && forall k | from <= k < |ranks| :: first <= ranks[k]
  }

  /** One round: a rank in its place, and the ranks below it, up to the next greater one. */
  method SelectAround(a: array<int>, ghost first0: nat, first: nat, last: nat, ghost done: seq<nat>, rs: seq<nat>)
      returns (rank: nat, upper: nat)
    requires first <= last <= a.Length && rs != [] && AscendingRanks(rs)
    requires forall k | 0 <= k < |rs| :: first <= rs[k] < last
    requires Done(a[..], first0, first, last, done)
    modifies a
    ensures Rearranged(old(a[..]), a[..], first, last)
    ensures first <= rank < last && 0 < upper <= |rs| && RanksFrom(rs, upper, rank + 1)
    ensures Done(a[..], first0, rank + 1, last, done + rs[..upper])
    decreases |rs|, 0
  {
    hide Separated;
    var middle := |rs| / 2;
    rank := rs[middle];
    ghost var before := a[..];
    SelectRank(a, first, rank, last);
    ghost var between := a[..];
    DoneKept(before, between, first0, first, last, done);
    if rs[0] == rs[|rs| - 1] {
      upper := |rs|;
      DoneMore(between, first0, first, rank, last, done, rs);
      assert rs[..upper] == rs;
      return;
    }
    var lower := LowerBound(rs[..middle], rank);
    upper := UpperBound(rs[middle + 1..], rank);
    upper := middle + 1 + upper;
    BalancedSelect(a, first, rank, rs[..lower]);
    RoundDone(between, a[..], first0, first, rank, last, done, rs, lower, upper);
  }

  lemma RoundDone(s: seq<int>, t: seq<int>, lo: nat, first: nat, rank: nat, hi: nat, done: seq<nat>, rs: seq<nat>,
      lower: nat, upper: nat)
    requires Done(s, lo, first, hi, done) && SplitsAt(s, first, rank, hi)
    requires lower <= upper <= |rs| && Rearranged(s, t, first, rank) && AllSplit(t, first, rank, rs[..lower])
    requires forall k | lower <= k < upper :: rs[k] == rank
    ensures Rearranged(s, t, first, hi) && Done(t, lo, rank + 1, hi, done + rs[..upper])
  {
    RearrangedWider(s, t, first, rank, first, hi);
    DoneKept(s, t, lo, first, hi, done);
    SplitAbove(s, t, first, rank, hi);
    forall i | 0 <= i < upper ensures rs[i] == rank || SplitsAt(t, first, rs[i], rank) {
      if i < lower { assert rs[i] == rs[..lower][i]; }
    }
    DoneMore(t, lo, first, rank, hi, done, rs[..upper]);
  }

  /** `balanced_select`: every rank asked for holds what sorting would put there. */
  method BalancedSelect(a: array<int>, first0: nat, last: nat, ranks: seq<nat>)
    requires first0 <= last <= a.Length
    requires forall j, k | 0 <= j <= k < |ranks| :: first0 <= ranks[j] <= ranks[k] < last
    modifies a
    ensures multiset(a[first0..last]) == multiset(old(a[first0..last]))
    ensures forall k | 0 <= k < first0 || last <= k < a.Length :: a[k] == old(a[k])
    ensures forall i, k | 0 <= i < |ranks| && first0 <= k < ranks[i] :: a[k] <= a[ranks[i]]
    ensures forall i, k | 0 <= i < |ranks| && ranks[i] <= k < last :: a[ranks[i]] <= a[k]
    ensures Rearranged(old(a[..]), a[..], first0, last) && AllSplit(a[..], first0, last, ranks)
    decreases |ranks|, 2
  {
    SelectLoop(a, first0, last, ranks);
    SelectionMeans(old(a[..]), a[..], first0, last, ranks);
    assert old(a[..])[first0..last] == old(a[first0..last]) && a[..][first0..last] == a[first0..last];
  }

  /** The ranks asked for hold what comes after nothing greater and before nothing less. */
  lemma SelectionMeans(s: seq<int>, t: seq<int>, lo: nat, hi: nat, ranks: seq<nat>)
    requires Rearranged(s, t, lo, hi) && AllSplit(t, lo, hi, ranks)
    ensures lo <= hi <= |s| == |t| && multiset(t[lo..hi]) == multiset(s[lo..hi])
    ensures forall k | 0 <= k < lo || hi <= k < |t| :: t[k] == s[k]
    ensures forall i | 0 <= i < |ranks| :: ranks[i] < hi
    ensures forall i, k | 0 <= i < |ranks| && lo <= k < ranks[i] :: t[k] <= t[ranks[i]]
    ensures forall i, k | 0 <= i < |ranks| && ranks[i] <= k < hi :: t[ranks[i]] <= t[k]
  {
    forall i | 0 <= i < |ranks| ensures SplitsAt(t, lo, ranks[i], hi) {}
  }

  /** The loop, whose rounds select around the middle rank of those left. */
  method SelectLoop(a: array<int>, first0: nat, last: nat, ranks: seq<nat>)
    requires first0 <= last <= a.Length && AscendingRanks(ranks)
    requires forall k | 0 <= k < |ranks| :: first0 <= ranks[k] < last
    modifies a
    ensures Rearranged(old(a[..]), a[..], first0, last)
    ensures AllSplit(a[..], first0, last, ranks)
    decreases |ranks|, 1
  {
    hide SplitsAt;
    var first, i := first0, 0;
    while i != |ranks|
      invariant first0 <= first <= last && RanksFrom(ranks, i, first)
      invariant Rearranged(old(a[..]), a[..], first0, last) && Done(a[..], first0, first, last, ranks[..i])
      decreases |ranks| - i
    {
      ghost var before := a[..];
      var rank, upper := SelectAround(a, first0, first, last, ranks[..i], ranks[i..]);
      RearrangedWider(before, a[..], first, last, first0, last);
      assert ranks[..i] + ranks[i..][..upper] == ranks[..i + upper];
      NextRanks(ranks, i, upper, rank + 1);
      first, i := rank + 1, i + upper;
    }
    assert ranks[..i] == ranks;
  }

  lemma NextRanks(ranks: seq<nat>, i: nat, upper: nat, first: nat)
    requires i <= |ranks| && RanksFrom(ranks[i..], upper, first)
    ensures RanksFrom(ranks, i + upper, first)
  {
    forall k | i + upper <= k < |ranks| ensures first <= ranks[k] { assert ranks[k] == ranks[i..][k - i]; }
  }

  // The value sorting would put there.

  function CountLess(s: seq<int>, v: int): nat {
    if s == [] then 0 else CountLess(s[..|s| - 1], v) + (if s[|s| - 1] < v then 1 else 0)
  }

  lemma {:induction false} CountAppend(s: seq<int>, t: seq<int>, v: int)
    ensures CountLess(s + t, v) == CountLess(s, v) + CountLess(t, v)
  {
    if t == [] {
      assert s + t == s;
    } else {
      assert (s + t)[..|s + t| - 1] == s + t[..|t| - 1];
      CountAppend(s, t[..|t| - 1], v);
    }
  }

  lemma {:induction false} CountBounds(s: seq<int>, v: int)
    ensures CountLess(s, v) <= |s|
    ensures (forall k | 0 <= k < |s| :: s[k] < v) ==> CountLess(s, v) == |s|
    ensures (forall k | 0 <= k < |s| :: v <= s[k]) ==> CountLess(s, v) == 0
  {
    if s != [] { CountBounds(s[..|s| - 1], v); }
  }

  lemma RemoveOne(t: seq<int>, j: nat, v: int) returns (r: seq<int>)
    requires j < |t|
    ensures |r| == |t| - 1 && multiset(r) == multiset(t) - multiset{t[j]}
    ensures CountLess(t, v) == CountLess(r, v) + (if t[j] < v then 1 else 0)
  {
    var a, b := t[..j], t[j + 1..];
    r := a + b;
    assert t == a + [t[j]] + b;
    CountAppend(a + [t[j]], b, v);
    CountAppend(a, [t[j]], v);
    CountAppend(a, b, v);
    assert [t[j]][..0] == [];
  }

  /** Counting does not depend on the order. */
  lemma {:induction false} CountPermuted(s: seq<int>, t: seq<int>, v: int)
    requires multiset(s) == multiset(t)
    ensures CountLess(s, v) == CountLess(t, v) && |s| == |t|
  {
    if s == [] {
      assert |multiset(t)| == |t|;
    } else {
      var n := |s| - 1;
      var j := MemberBefore(t, s, n);
      var r := RemoveOne(t, j, v);
      assert s == s[..n] + [s[n]];
      assert multiset(s[..n]) == multiset(s) - multiset{s[n]};
      CountPermuted(s[..n], r, v);
    }
  }

  lemma CountTwo(s: seq<int>, i: nat, v: int)
    requires i <= |s|
    ensures CountLess(s, v) == CountLess(s[..i], v) + CountLess(s[i..], v)
  {
    assert s[..i] + s[i..] == s;
    CountAppend(s[..i], s[i..], v);
  }

  /** At most r elements are less than s[r] if it is in place, and more than r are not greater. */
  lemma CountAround(s: seq<int>, r: nat, v: int)
    requires r < |s|
    ensures (forall k | r <= k < |s| :: v <= s[k]) ==> CountLess(s, v) <= r
    ensures (forall k | 0 <= k <= r :: s[k] < v) ==> CountLess(s, v) > r
  {
    hide *;
    CountTwo(s, r, v);
    CountTwo(s, r + 1, v);
    CountBounds(s[..r], v);
    CountBounds(s[r..], v);
    CountBounds(s[..r + 1], v);
  }

  /** A rank in place holds the value that any sorting of the range has there. */
  lemma SplitIsSorted(s: seq<int>, t: seq<int>, r: nat)
    requires SplitsAt(s, 0, r, |s|) && Ascending(t) && multiset(s) == multiset(t)
    ensures |t| == |s| && t[r] == s[r]
  {
    var v := s[r];
    CountPermuted(s, t, v);
    CountPermuted(s, t, v + 1);
    CountAround(s, r, v);
    CountAround(t, r, v);
    CountAround(s, r, v + 1);
    CountAround(t, r, v + 1);
  }
}
