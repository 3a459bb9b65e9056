/** Batches of binary searches in a sorted array: level by level for all queries, and block by block. */
module SearchSorted {
  import opened Powers
  import RankSelection

  datatype Side = Left | Right

  /** The comparison of the two sides: whether an element lies before the place of a key. */
  predicate Before(side: Side, element: int, key: int) {
    if side == Left then element < key else element <= key
  }

  predicate Ordered(s: seq<int>) {
    forall j, k | 0 <= j <= k < |s| :: s[j] <= s[k]
  }

  /** The lower or upper bound of a key: what lies before it comes before its place, and nothing else does. */
  predicate IsPlace(s: seq<int>, side: Side, key: int, p: nat) {
    && p <= |s|
    && (forall k | 0 <= k < p :: Before(side, s[k], key))
    && (forall k | p <= k < |s| :: !Before(side, s[k], key))
  }

  /** With plain comparisons: Left is the lower bound, Right the upper. */
  lemma PlaceMeans(s: seq<int>, key: int, p: nat, q: nat)
    requires IsPlace(s, Left, key, p) && IsPlace(s, Right, key, q)
    ensures p <= q <= |s|
    ensures forall k | 0 <= k < |s| :: s[k] < key <==> k < p
    ensures forall k | 0 <= k < |s| :: s[k] <= key <==> k < q
  {
    if q < |s| { assert !Before(Right, s[q], key); }
  }

  /** In counts: before Left are as many as are less, and between Left and Right as many as are equal. */
  lemma PlaceCounts(s: seq<int>, key: int, p: nat, q: nat)
    requires IsPlace(s, Left, key, p) && IsPlace(s, Right, key, q)
    ensures RankSelection.CountLess(s, key) == p && multiset(s)[key] == q - p
  {
    PlaceMeans(s, key, p, q);
    hide *;
    LessCounted(s, key, p);
    EqualCounted(s, key, p, q);
  }

  lemma LessCounted(s: seq<int>, key: int, p: nat)
    requires p <= |s| && forall k | 0 <= k < |s| :: s[k] < key <==> k < p
    ensures RankSelection.CountLess(s, key) == p
  {
    RankSelection.CountTwo(s, p, key);
    RankSelection.CountBounds(s[..p], key);
    RankSelection.CountBounds(s[p..], key);
  }

  lemma EqualCounted(s: seq<int>, key: int, p: nat, q: nat)
    requires p <= q <= |s|
    requires forall k | 0 <= k < |s| :: s[k] == key <==> p <= k < q
    ensures multiset(s)[key] == q - p
  {
    assert s == s[..p] + (s[p..q] + s[q..]);
    NoneEqual(s[..p], key);
    AllEqual(s[p..q], key);
    NoneEqual(s[q..], key);
  }

  lemma NoneEqual(s: seq<int>, key: int)
    requires forall k | 0 <= k < |s| :: s[k] != key
    ensures multiset(s)[key] == 0
  {
    assert key !in s;
  }

  lemma {:induction false} AllEqual(s: seq<int>, key: int)
    requires forall k | 0 <= k < |s| :: s[k] == key
    ensures multiset(s)[key] == |s|
  {
    if s != [] {
      AllEqual(s[1..], key);
      assert s == [s[0]] + s[1..];
    }
  }

  lemma PlaceIsUnique(s: seq<int>, side: Side, key: int, p: nat, q: nat)
    requires IsPlace(s, side, key, p) && IsPlace(s, side, key, q)
    ensures p == q
  {
    PlaceNotAbove(s, side, key, p, q);
    PlaceNotAbove(s, side, key, q, p);
  }

  lemma PlaceNotAbove(s: seq<int>, side: Side, key: int, p: nat, q: nat)
    requires IsPlace(s, side, key, p) && IsPlace(s, side, key, q)
    ensures p <= q
  {
    if q < |s| {
      assert !Before(side, s[q], key);
    }
  }

  /** The place is in the range of the given length from lo on. */
  predicate Within(s: seq<int>, side: Side, key: int, lo: nat, length: nat) {
    && lo + length <= |s|
    && (forall k | 0 <= k < lo :: Before(side, s[k], key))
    && (forall k | lo + length <= k < |s| :: !Before(side, s[k], key))
  }

  lemma BeforeIsMonotone(side: Side, a: int, b: int, key: int)
    requires a <= b
    ensures Before(side, b, key) ==> Before(side, a, key)
  {}

  /** Half the range is enough, the upper or the lower by the element between. */
  lemma Halve(s: seq<int>, side: Side, key: int, lo: nat, length: nat)
    requires Ordered(s) && Within(s, side, key, lo, length) && length >= 1
    ensures var half := length / 2;
      Within(s, side, key, if Before(side, s[lo + half], key) then lo + half else lo, length - half)
  {
    var half := length / 2;
    var m := lo + half;
    if Before(side, s[m], key) {
      forall k | 0 <= k < m ensures Before(side, s[k], key) { BeforeIsMonotone(side, s[k], s[m], key); }
    } else {
      forall k | m <= k < |s| ensures !Before(side, s[k], key) { BeforeIsMonotone(side, s[m], s[k], key); }
    }
  }

  lemma LastStep(s: seq<int>, side: Side, key: int, lo: nat)
    requires Within(s, side, key, lo, 1)
    ensures IsPlace(s, side, key, lo + (if Before(side, s[lo], key) then 1 else 0))
  {}

  // Strided arrays.

  function Off(i: nat, step: nat): nat {
    i * step
  }

  /** The i-th element of a strided array. */
  lemma OffIs(i: nat, step: nat)
    ensures Off(i, step) == i * step
  {}

  lemma OffsApart(i: nat, j: nat, step: nat)
    requires step >= 1 && i < j
    ensures Off(i, step) < Off(j, step)
  {
    MulLessEq(step, i + 1, j);
    assert step * (i + 1) == i * step + step;
  }

  lemma OthersApart(i: nat, n: nat, step: nat)
    requires step >= 1 && i < n
    ensures forall j: nat | j < n && j != i :: Off(j, step) != Off(i, step)
  {
    forall j: nat | j < n && j != i ensures Off(j, step) != Off(i, step) {
      if j < i { OffsApart(j, i, step); } else { OffsApart(i, j, step); }
    }
  }

  /** The array has room for n elements, step apart. */
  predicate Room(length: nat, n: nat, step: nat) {
    step >= 1 && forall i: nat | i < n :: Off(i, step) < length
  }

  ghost predicate Holds(a: array<int>, step: nat, s: seq<int>)
    reads a
  {
    Room(a.Length, |s|, step) && forall i: nat | i < |s| :: a[Off(i, step)] == s[i]
  }

  /** All places are in ranges of the same length. */
  ghost predicate AllWithin(s: seq<int>, side: Side, keys: seq<int>, bases: array<nat>, step: nat, length: nat)
    requires Room(bases.Length, |keys|, step)
    reads bases
  {
    forall i: nat | i < |keys| :: Within(s, side, keys[i], bases[Off(i, step)], length)
  }

  /** The slot is none of those from the start-th to the n-th. */
  ghost predicate Elsewhere(j: nat, start: nat, n: nat, step: nat) {
    forall i: nat | start <= i < n :: Off(i, step) != j
  }

  /** Only the slots from the start-th to the n-th are written. */
  twostate predicate Untouched(output: array<nat>, start: nat, n: nat, step: nat)
    reads output
  {
    forall j: nat | j < output.Length && Elsewhere(j, start, n, step) :: output[j] == old(output[j])
  }

  /** The slots from the start-th to the n-th hold the places of the keys. */
  ghost predicate Placed(output: array<nat>, start: nat, n: nat, step: nat, s: seq<int>, side: Side, keys: seq<int>)
    requires start <= n <= start + |keys| && Room(output.Length, n, step)
    reads output
  {
    forall i: nat | start <= i < n :: IsPlace(s, side, keys[i - start], output[Off(i, step)])
  }

  /** One level for all keys: `bases[i] += before(sorted[bases[i] + half], keys[i]) * half`. */
  method HalveAll(bases: array<nat>, step: nat, keys: array<int>, ghost ks: seq<int>, n: nat,
      sorted: array<int>, sortedStep: nat, ghost s: seq<int>, side: Side, length: nat)
    requires Room(bases.Length, n, step) && |ks| == n && Holds(keys, step, ks) && Holds(sorted, sortedStep, s)
    requires Ordered(s) && length >= 1 && AllWithin(s, side, ks, bases, step, length)
    modifies bases
    ensures AllWithin(s, side, ks, bases, step, length - length / 2)
    ensures Untouched(bases, 0, n, step)
  {
    hide Off;
    var half := length / 2;
    var i := 0;
    while i != n
      invariant i <= n
      invariant forall j: nat | j < i :: Within(s, side, ks[j], bases[Off(j, step)], length - half)
      invariant forall j: nat | i <= j < n :: bases[Off(j, step)] == old(bases[Off(j, step)])
      invariant Untouched(bases, 0, n, step)
    {
      var o := Off(i, step);
      assert Within(s, side, ks[i], bases[o], length);
      Halve(s, side, ks[i], bases[o], length);
      OthersApart(i, n, step);
      if Before(side, sorted[Off(bases[o] + half, sortedStep)], keys[o]) {
        bases[o] := bases[o] + half;
      }
      i := i + 1;
    }
  }

  /** The last comparison: `bases[i] + before(sorted[bases[i]], keys[i])`. */
  method PutPlace(output: array<nat>, o: nat, base: nat, key: int, sorted: array<int>, sortedStep: nat,
      ghost s: seq<int>, side: Side)
    requires o < output.Length && Holds(sorted, sortedStep, s) && Within(s, side, key, base, 1)
    modifies output
    ensures IsPlace(s, side, key, output[o])
    ensures forall k | 0 <= k < output.Length && k != o :: output[k] == old(output[k])
  {
    LastStep(s, side, key, base);
    output[o] := base + (if Before(side, sorted[Off(base, sortedStep)], key) then 1 else 0);
  }

  /** The last comparison for all keys, into another array or the same. */
  method Finish(output: array<nat>, ostart: nat, ostep: nat, bases: array<nat>, bstep: nat, keys: array<int>,
      kstep: nat, ghost ks: seq<int>, n: nat, sorted: array<int>, sortedStep: nat, ghost s: seq<int>, side: Side)
    requires Room(bases.Length, n, bstep) && Room(output.Length, ostart + n, ostep) && |ks| == n
    requires output == bases ==> ostart == 0 && ostep == bstep
    requires Holds(keys, kstep, ks) && Holds(sorted, sortedStep, s) && AllWithin(s, side, ks, bases, bstep, 1)
    modifies output
    ensures Placed(output, ostart, ostart + n, ostep, s, side, ks)
    ensures Untouched(output, ostart, ostart + n, ostep)
  {
    hide Off, Within, IsPlace;
    var i := 0;
    while i != n
      invariant i <= n
      invariant Placed(output, ostart, ostart + i, ostep, s, side, ks)
      invariant forall j: nat | i <= j < n :: bases[Off(j, bstep)] == old(bases[Off(j, bstep)])
      invariant Untouched(output, ostart, ostart + n, ostep)
    {
      var o, b := Off(ostart + i, ostep), Off(i, bstep);
      assert Within(s, side, ks[i], bases[b], 1);
      OthersApart(ostart + i, ostart + n, ostep);
      PutPlace(output, o, bases[b], keys[Off(i, kstep)], sorted, sortedStep, s, side);
      i := i + 1;
    }
  }

  /** Nothing to search in: all places are 0. */
  method ZeroAll(output: array<nat>, ghost s: seq<int>, n: nat, ghost ks: seq<int>, side: Side, step: nat)
    requires Room(output.Length, n, step) && |ks| == n && s == []
    modifies output
    ensures Placed(output, 0, n, step, s, side, ks)
    ensures Untouched(output, 0, n, step)
  {
    hide Off;
    var i := 0;
    while i != n
      invariant i <= n
      invariant forall j: nat | j < i :: output[Off(j, step)] == 0
      invariant Untouched(output, 0, n, step)
    {
      OthersApart(i, n, step);
      output[Off(i, step)] := 0;
      i := i + 1;
    }
  }

  /** The first comparison of `level_search`, with one pivot for all queries. */
  method FirstHalf(output: array<nat>, sorted: array<int>, count: nat, ghost s: seq<int>, queries: array<int>,
      n: nat, ghost ks: seq<int>, side: Side, step: nat)
    requires Room(output.Length, n, step) && |ks| == n && Holds(queries, step, ks)
    requires |s| == count > 0 && Holds(sorted, step, s) && Ordered(s)
    modifies output
    ensures AllWithin(s, side, ks, output, step, count - count / 2)
    ensures Untouched(output, 0, n, step)
  {
    hide Off;
    var half := count / 2;
    var pivot := sorted[Off(half, step)];
    var i := 0;
    while i != n
      invariant i <= n
      invariant forall j: nat | j < i :: Within(s, side, ks[j], output[Off(j, step)], count - half)
      invariant Untouched(output, 0, n, step)
    {
      OthersApart(i, n, step);
      assert Within(s, side, ks[i], 0, count);
      Halve(s, side, ks[i], 0, count);
      output[Off(i, step)] := if Before(side, pivot, queries[Off(i, step)]) then half else 0;
      i := i + 1;
    }
  }

  /** The levels of `level_search`: the output holds the intermediate bases. */
  method SearchLevels(output: array<nat>, sorted: array<int>, count: nat, ghost s: seq<int>, queries: array<int>,
      n: nat, ghost ks: seq<int>, side: Side, step: nat)
    requires Room(output.Length, n, step) && |ks| == n && Holds(queries, step, ks)
    requires |s| == count && Holds(sorted, step, s) && Ordered(s)
    modifies output
    ensures Placed(output, 0, n, step, s, side, ks)
    ensures Untouched(output, 0, n, step)
  {
    if count == 0 {
      ZeroAll(output, s, n, ks, side, step);
      return;
    }
    FirstHalf(output, sorted, count, s, queries, n, ks, side, step);
    var length := count - count / 2;
    while length > 1
      invariant length >= 1 && AllWithin(s, side, ks, output, step, length)
      invariant Untouched(output, 0, n, step)
    {
      HalveAll(output, step, queries, ks, n, sorted, step, s, side, length);
      length := length - length / 2;
    }
    Finish(output, 0, step, output, step, queries, step, ks, n, sorted, step, s, side);
  }

  // Blocks of queries.

  lemma KeyMonotone(side: Side, element: int, key: int, larger: int)
    requires key <= larger
    ensures Before(side, element, key) ==> Before(side, element, larger)
  {}

  /** All keys have their places in one range. */
  predicate AllIn(s: seq<int>, side: Side, keys: seq<int>, lo: nat, length: nat) {
    forall i | 0 <= i < |keys| :: Within(s, side, keys[i], lo, length)
  }

  /** If the least key is after the element, or the greatest is not, half the range is enough for all. */
  lemma HalveShared(s: seq<int>, side: Side, keys: seq<int>, low: int, high: int, lo: nat, length: nat)
    requires Ordered(s) && AllIn(s, side, keys, lo, length) && 1 <= length && lo + length <= |s|
    requires forall i | 0 <= i < |keys| :: low <= keys[i] <= high
    ensures var half := length / 2;
      && (Before(side, s[lo + half], low) ==> AllIn(s, side, keys, lo + half, length - half))
      && (!Before(side, s[lo + half], high) ==> AllIn(s, side, keys, lo, length - half))
  {
    var half := length / 2;
    forall i | 0 <= i < |keys|
      ensures Before(side, s[lo + half], low) ==> Within(s, side, keys[i], lo + half, length - half)
      ensures !Before(side, s[lo + half], high) ==> Within(s, side, keys[i], lo, length - half)
    {
      Halve(s, side, keys[i], lo, length);
      KeyMonotone(side, s[lo + half], low, keys[i]);
      KeyMonotone(side, s[lo + half], keys[i], high);
    }
  }

  /** The shared prefix of a block's searches: while least and greatest key agree on the half. */
  method SharedPrefix(keys: array<int>, ghost ks: seq<int>, active: nat, sorted: array<int>, count: nat, step: nat,
      ghost s: seq<int>, side: Side) returns (base: nat, length: nat)
    requires 1 <= active == |ks| && Holds(keys, 1, ks)
    requires 1 <= count == |s| && Holds(sorted, step, s) && Ordered(s)
    ensures length >= 1 && base + length <= count && AllIn(s, side, ks, base, length)
  {
    var low, high := keys[Off(0, 1)], keys[Off(0, 1)];
    var i := 1;
    while i != active
      invariant 1 <= i <= active && forall j | 0 <= j < i :: low <= ks[j] <= high
    {
      assert keys[Off(i, 1)] == ks[i];
      low := if keys[Off(i, 1)] < low then keys[Off(i, 1)] else low;
      high := if keys[Off(i, 1)] > high then keys[Off(i, 1)] else high;
      i := i + 1;
    }
    base, length := 0, count;
    while length > 1
      invariant length >= 1 && base + length <= count && AllIn(s, side, ks, base, length)
    {
      var half := length / 2;
      var pivot := sorted[Off(base + half, step)];
      HalveShared(s, side, ks, low, high, base, length);
      if Before(side, pivot, low) {
        base := base + half;
      } else if Before(side, pivot, high) {
        break;
      }
      length := length - half;
    }
  }

  /** Retains a block's queries. */
  method LoadKeys(queries: array<int>, ghost ks: seq<int>, start: nat, active: nat, step: nat)
      returns (keys: array<int>)
    requires start + active <= |ks| && Holds(queries, step, ks)
    ensures fresh(keys) && keys.Length == active && Holds(keys, 1, ks[start..start + active])
  {
    keys := new int[active];
    var i := 0;
    while i != active
      invariant i <= active && forall j: nat | j < i :: keys[j] == ks[start + j]
    {
      keys[i] := queries[Off(start + i, step)];
      i := i + 1;
    }
  }

  /** The first level, with the same element for all keys. */
  method FirstLevel(keys: array<int>, ghost ks: seq<int>, active: nat, sorted: array<int>, count: nat, step: nat,
      ghost s: seq<int>, side: Side, base: nat, length: nat) returns (bases: array<nat>)
    requires active == |ks| && Holds(keys, 1, ks)
    requires count == |s| && Holds(sorted, step, s) && Ordered(s)
    requires length >= 1 && base + length <= count && AllIn(s, side, ks, base, length)
    ensures fresh(bases) && bases.Length == active && Room(active, active, 1)
    ensures AllWithin(s, side, ks, bases, 1, length - length / 2)
  {
    var half := length / 2;
    var pivot := sorted[Off(base + half, step)];
    bases := new nat[active];
    var i := 0;
    while i != active
      invariant i <= active
      invariant forall j: nat | j < i :: Within(s, side, ks[j], bases[Off(j, 1)], length - half)
    {
      Halve(s, side, ks[i], base, length);
      assert keys[Off(i, 1)] == ks[i];
      bases[i] := base + (if Before(side, pivot, keys[i]) then half else 0);
      i := i + 1;
    }
  }

  /** The searches of one block of queries. */
  method RunBlock(output: array<nat>, start: nat, active: nat, sorted: array<int>, count: nat, ghost s: seq<int>,
      queries: array<int>, ghost ks: seq<int>, side: Side, step: nat, shared: bool)
    requires 1 <= active && start + active <= |ks| && Room(output.Length, |ks|, step) && Holds(queries, step, ks)
    requires 1 <= count == |s| && Holds(sorted, step, s) && Ordered(s)
    modifies output
    ensures Placed(output, start, start + active, step, s, side, ks[start..start + active])
    ensures Untouched(output, start, start + active, step)
  {
    hide Off;
    ghost var kb := ks[start..start + active];
    var keys := LoadKeys(queries, ks, start, active, step);
    var base, length := 0, count;
    if shared && active > 1 {
      base, length := SharedPrefix(keys, kb, active, sorted, count, step, s, side);
    }
    var bases := FirstLevel(keys, kb, active, sorted, count, step, s, side, base, length);
    length := length - length / 2;
    while length > 1
      invariant length >= 1 && AllWithin(s, side, kb, bases, 1, length)
      modifies bases
    {
      HalveAll(bases, 1, keys, kb, active, sorted, step, s, side, length);
      length := length - length / 2;
    }
    Finish(output, start, step, bases, 1, keys, 1, kb, active, sorted, step, s, side);
  }

  /** The blocks of `blocked_search`, and the queries left over one by one. */
  method SearchBlocks(output: array<nat>, sorted: array<int>, count: nat, ghost s: seq<int>, queries: array<int>,
      n: nat, ghost ks: seq<int>, side: Side, step: nat, block: nat, shared: bool)
    requires block >= 1 && Room(output.Length, n, step) && |ks| == n && Holds(queries, step, ks)
    requires |s| == count && Holds(sorted, step, s) && Ordered(s)
    modifies output
    ensures Placed(output, 0, n, step, s, side, ks)
    ensures Untouched(output, 0, n, step)
  {
    if count == 0 {
      ZeroAll(output, s, n, ks, side, step);
      return;
    }
    var start := 0;
    while n - start >= block
      invariant start <= n && Untouched(output, 0, n, step) && Placed(output, 0, start, step, s, side, ks)
    {
      NextBlock(output, start, block, sorted, count, s, queries, n, ks, side, step, shared);
      start := start + block;
    }
    while start != n
      invariant start <= n && Untouched(output, 0, n, step) && Placed(output, 0, start, step, s, side, ks)
    {
      NextBlock(output, start, 1, sorted, count, s, queries, n, ks, side, step, shared);
      start := start + 1;
    }
  }

  /** A block after those that are done. */
  method NextBlock(output: array<nat>, start: nat, active: nat, sorted: array<int>, count: nat, ghost s: seq<int>,
      queries: array<int>, n: nat, ghost ks: seq<int>, side: Side, step: nat, shared: bool)
    requires 1 <= active && start + active <= n == |ks| && Room(output.Length, n, step) && Holds(queries, step, ks)
    requires 1 <= count == |s| && Holds(sorted, step, s) && Ordered(s)
    requires Placed(output, 0, start, step, s, side, ks)
    modifies output
    ensures Placed(output, 0, start + active, step, s, side, ks) && Untouched(output, 0, n, step)
  {
    BlocksApart(start, active, step);
    RunBlock(output, start, active, sorted, count, s, queries, ks, side, step, shared);
  }

  lemma BlocksApart(start: nat, active: nat, step: nat)
    requires step >= 1
    ensures forall i: nat | i < start :: Elsewhere(Off(i, step), start, start + active, step)
  {
    forall i: nat, j: nat | i < start <= j < start + active ensures Off(j, step) != Off(i, step) {
      OffsApart(i, j, step);
    }
  }

  // The two searches, with plain comparisons.

  lemma AnswersAre(output: array<nat>, s: seq<int>, side: Side, ks: seq<int>, step: nat)
    requires Room(output.Length, |ks|, step) && Placed(output, 0, |ks|, step, s, side, ks)
    ensures forall i: nat | i < |ks| :: output[Off(i, step)] <= |s|
    ensures forall i: nat, j: nat | i < |ks| && j < |s| ::
      j < output[Off(i, step)] <==> s[j] < ks[i] || (side == Right && s[j] == ks[i])
  {
    hide Off;
    forall i: nat | i < |ks|
      ensures output[Off(i, step)] <= |s|
      ensures forall j: nat | j < |s| ::
        j < output[Off(i, step)] <==> s[j] < ks[i] || (side == Right && s[j] == ks[i])
    {
      assert IsPlace(s, side, ks[i], output[Off(i, step)]);
    }
  }

  /** `level_search`: each query's lower or upper bound among the sorted elements, all `step` apart. */
  method LevelSearch(output: array<nat>, sorted: array<int>, count: nat, ghost s: seq<int>, queries: array<int>,
      n: nat, ghost ks: seq<int>, side: Side, step: nat)
    requires step >= 1 && |s| == count && |ks| == n
    requires forall j, k | 0 <= j <= k < count :: s[j] <= s[k]
    requires forall j: nat | j < count :: Off(j, step) < sorted.Length && sorted[Off(j, step)] == s[j]
    requires forall i: nat | i < n :: Off(i, step) < queries.Length && queries[Off(i, step)] == ks[i]
    requires forall i: nat | i < n :: Off(i, step) < output.Length
    modifies output
    ensures forall i: nat | i < n :: output[Off(i, step)] <= count
    ensures forall i: nat, j: nat | i < n && j < count ::
      j < output[Off(i, step)] <==> s[j] < ks[i] || (side == Right && s[j] == ks[i])
    ensures forall k: nat | k < output.Length && (forall i: nat | i < n :: Off(i, step) != k) ::
      output[k] == old(output[k])
  {
    hide Off;
    SearchLevels(output, sorted, count, s, queries, n, ks, side, step);
    AnswersAre(output, s, side, ks, step);
  }

  /** `blocked_search`: the same for every width of block, with or without the shared prefix. */
  method BlockedSearch(output: array<nat>, sorted: array<int>, count: nat, ghost s: seq<int>, queries: array<int>,
      n: nat, ghost ks: seq<int>, side: Side, step: nat, block: nat, shared: bool)
    requires block >= 1
    requires step >= 1 && |s| == count && |ks| == n
    requires forall j, k | 0 <= j <= k < count :: s[j] <= s[k]
    requires forall j: nat | j < count :: Off(j, step) < sorted.Length && sorted[Off(j, step)] == s[j]
    requires forall i: nat | i < n :: Off(i, step) < queries.Length && queries[Off(i, step)] == ks[i]
    requires forall i: nat | i < n :: Off(i, step) < output.Length
    modifies output
    ensures forall i: nat | i < n :: output[Off(i, step)] <= count
    ensures forall i: nat, j: nat | i < n && j < count ::
      j < output[Off(i, step)] <==> s[j] < ks[i] || (side == Right && s[j] == ks[i])
    ensures forall k: nat | k < output.Length && (forall i: nat | i < n :: Off(i, step) != k) ::
      output[k] == old(output[k])
  {
    hide Off;
    SearchBlocks(output, sorted, count, s, queries, n, ks, side, step, block, shared);
    AnswersAre(output, s, side, ks, step);
  }
}
