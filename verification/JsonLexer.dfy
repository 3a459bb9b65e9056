/** The resumable lexer: every call of Read continues where the last one stopped. */
module JsonLexer {
  import opened Word64
  import opened JsonBytes
  import opened JsonAutomaton
  import opened JsonBlock
  import opened JsonTokenCount

  /** `std::memset(stk + diff, ' ', 64 - diff)` */
  function Spaces(n: nat): (p: seq<Byte>)
    ensures |p| == n && forall i | 0 <= i < n :: p[i] == 32
  {
    seq(n, _ => 32)
  }

  // Set bits, lowest first.

  lemma {:induction false} PositionsFirst(x: Word, k: nat, j: nat)
    requires k <= j < 64 && x[j] && forall i | k <= i < j :: !x[i]
    ensures Positions(x, k) == [j] + Positions(x, j + 1)
    decreases j - k
  {
    if k < j { PositionsFirst(x, k + 1, j); }
  }

  lemma {:induction false} PositionsSame(x: Word, y: Word, k: nat)
    requires k <= 64 && forall i | k <= i < 64 :: x[i] == y[i]
    ensures Positions(x, k) == Positions(y, k)
    decreases 64 - k
  {
    if k < 64 { PositionsSame(x, y, k + 1); }
  }

  lemma {:induction false} PositionsSkip(x: Word, k: nat, j: nat)
    requires k <= j <= 64 && forall i | k <= i < j :: !x[i]
    ensures Positions(x, k) == Positions(x, j)
    decreases j - k
  {
    if k < j { PositionsSkip(x, k + 1, j); }
  }

  /** Clearing the lowest set bit drops the first position, and keeps the empty word empty. */
  lemma PositionsClear(x: Word)
    ensures Positions(And(x, Sub(x, One(0))), 0) ==
      if Positions(x, 0) == [] then [] else Positions(x, 0)[1..]
  {
    var y := And(x, Sub(x, One(0)));
    if exists k | 0 <= k < 64 :: x[k] {
      var k := Lowest(x);
      ClearLowest(x, k);
      PositionsFirst(x, 0, k);
      PositionsSkip(y, 0, k + 1);
      PositionsSame(x, y, k + 1);
    } else {
      PositionsSkip(x, 0, 64);
      PositionsSkip(y, 0, 64);
    }
  }

  lemma Lowest(x: Word) returns (k: nat)
    requires exists k | 0 <= k < 64 :: x[k]
    ensures k < 64 && x[k] && forall j | 0 <= j < k :: !x[j]
  {
    k := 0;
    while !x[k]
      invariant k < 64 && forall j | 0 <= j < k :: !x[j]
      decreases 64 - k
    {
      k := k + 1;
    }
  }

  /** Count trailing zeros; on the zero word the result means nothing. */
  method Ctz(x: Word) returns (c: nat)
    ensures Positions(x, 0) != [] ==> c == Positions(x, 0)[0]
  {
    c := 0;
    while c < 64 && !x[c]
      invariant c <= 64 && forall j | 0 <= j < c :: !x[j]
    {
      c := c + 1;
    }
    if c < 64 { PositionsFirst(x, 0, c); } else { PositionsSkip(x, 0, 64); }
  }

  method Popcount(x: Word) returns (n: nat)
    ensures n == |Positions(x, 0)|
  {
    var i := 64;
    n := 0;
    while i > 0
      invariant 0 <= i <= 64 && n == |Positions(x, i)|
    {
      i := i - 1;
      n := n + if x[i] then 1 else 0;
    }
  }

  /** The positions ts are the offsets ps counted from base. */
  predicate Shifted(ts: seq<nat>, ps: seq<nat>, base: nat) {
    |ts| == |ps| && forall j | 0 <= j < |ps| :: ts[j] == base + ps[j]
  }

  lemma ShiftedCons(ts: seq<nat>, ps: seq<nat>, base: nat, k: nat)
    requires Shifted(ts, ps, base)
    ensures Shifted([base + k] + ts, [k] + ps, base)
  {}

  /** A mask that marks the token starts of a block lists the block's tokens. */
  lemma {:induction false} PositionsAreTokens(s: Scan, p: seq<Byte>, m: Word, base: nat, k: nat)
    requires |p| == 64 && k <= 64
    requires MarksStarts(m, s, p)
    ensures Shifted(Tokens(Run(s, p[..k]), p[k..], base + k), Positions(m, k), base)
    decreases 64 - k
  {
    if k < 64 {
      PositionsAreTokens(s, p, m, base, k + 1);
      RunStep(s, p, k);
      assert p[k..][1..] == p[k + 1..];
      ShiftedCons(Tokens(Run(s, p[..k + 1]), p[k + 1..], base + k + 1), Positions(m, k + 1), base, k);
    }
  }

  // Writing the tokens of one block.

  /** The first n of the tokens ps (offsets from idx) stand in buf from index at on. */
  predicate Written(buf: seq<nat>, at: nat, idx: nat, ps: seq<nat>, n: nat) {
    at + n <= |buf| && forall i | 0 <= i < n && i < |ps| :: buf[at + i] == (idx + ps[i]) % U32
  }

  lemma WrittenStep(b0: seq<nat>, b1: seq<nat>, at: nat, idx: nat, ps: seq<nat>, i: nat, c: nat)
    requires at + i < |b0| && b1 == b0[at + i := (idx + c) % U32]
    requires Written(b0, at, idx, ps, i) && (i < |ps| ==> c == ps[i])
    ensures Written(b1, at, idx, ps, i + 1)
  {}

  function Tail(ps: seq<nat>, n: nat): seq<nat> {
    if n < |ps| then ps[n..] else []
  }

  /** Taking the lowest bit: its position is the next one listed, and clearing it drops that one. */
  lemma TakeLowest(x: Word, ps: seq<nat>, n: nat)
    requires Positions(x, 0) == Tail(ps, n)
    ensures n < |ps| ==> Positions(x, 0) != [] && Positions(x, 0)[0] == ps[n]
    ensures Positions(And(x, Sub(x, One(0))), 0) == Tail(ps, n + 1)
  {
    PositionsClear(x);
  }

  /** Slots lo..hi of one block: `token_buf[i] = idx + ctz(S); S &= S - 1;`. */
  method Emit(buf: array<nat>, at: nat, idx: nat, x: Word, ghost ps: seq<nat>, lo: nat, hi: nat)
      returns (y: Word)
    requires lo <= hi && at + hi <= buf.Length
    requires Positions(x, 0) == Tail(ps, lo) && Written(buf[..], at, idx, ps, lo)
    modifies buf
    ensures Positions(y, 0) == Tail(ps, hi) && Written(buf[..], at, idx, ps, hi)
    ensures forall i | 0 <= i < buf.Length && !(at + lo <= i < at + hi) :: buf[i] == old(buf[i])
  {
    y := x;
    var i := lo;
    while i < hi
      invariant lo <= i <= hi
      invariant Positions(y, 0) == Tail(ps, i) && Written(buf[..], at, idx, ps, i)
      invariant forall j | 0 <= j < buf.Length && !(at + lo <= j < at + i) :: buf[j] == old(buf[j])
    {
      var c := Ctz(y);
      TakeLowest(y, ps, i);
      ghost var before := buf[..];
      buf[at + i] := (idx + c) % U32;
      WrittenStep(before, buf[..], at, idx, ps, i, c);
      y := And(y, Sub(y, One(0)));
      i := i + 1;
    }
  }

  /** All tokens of a block, in groups of 4, 4, 4, 4 and the rest; a group may write past the last token. */
  method WriteTokens(buf: array<nat>, at: nat, idx: nat, x: Word, num: nat)
    requires at + 64 <= buf.Length && num == |Positions(x, 0)|
    modifies buf
    ensures Written(buf[..], at, idx, Positions(x, 0), num)
    ensures forall i | 0 <= i < buf.Length && !(at <= i < at + 64) :: buf[i] == old(buf[i])
  {
    ghost var ps := Positions(x, 0);
    var y := Emit(buf, at, idx, x, ps, 0, 4);
    if num > 4 {
      y := Emit(buf, at, idx, y, ps, 4, 8);
      if num > 8 {
        y := Emit(buf, at, idx, y, ps, 8, 12);
        if num > 12 { WriteMany(buf, at, idx, y, ps, num); }
      }
    }
  }

  /** The last groups of a block of more than 12 tokens. */
  method WriteMany(buf: array<nat>, at: nat, idx: nat, x: Word, ghost ps: seq<nat>, num: nat)
    requires at + 64 <= buf.Length && 12 < num <= 64 && num == |ps|
    requires Positions(x, 0) == Tail(ps, 12) && Written(buf[..], at, idx, ps, 12)
    modifies buf
    ensures Written(buf[..], at, idx, ps, num)
    ensures forall i | 0 <= i < buf.Length && !(at <= i < at + 64) :: buf[i] == old(buf[i])
  {
    var y := Emit(buf, at, idx, x, ps, 12, 16);
    if num > 16 { y := Emit(buf, at, idx, y, ps, 16, num); }
  }

  lemma SliceShifted(buf: seq<nat>, at: nat, idx: nat, ps: seq<nat>, ts: seq<nat>)
    requires Written(buf, at, idx, ps, |ps|) && Shifted(ts, ps, idx)
    requires idx + 64 <= U32 && forall j | 0 <= j < |ps| :: ps[j] < 64
    ensures buf[at..at + |ps|] == ts
  {}

  /** Without wrap-around the written values are the tokens of the block. */
  lemma WrittenIsTokens(buf: seq<nat>, at: nat, idx: nat, scan: Scan, p: seq<Byte>, m: Word)
    requires |p| == 64 && MarksStarts(m, scan, p) && idx + 64 <= U32
    requires Written(buf, at, idx, Positions(m, 0), |Positions(m, 0)|)
    ensures buf[at..at + |Positions(m, 0)|] == Tokens(scan, p, idx)
  {
    PositionsAreTokens(scan, p, m, idx, 0);
    assert p[..0] == [] && p[0..] == p;
    assert Run(scan, []) == scan;
    SliceShifted(buf, at, idx, Positions(m, 0), Tokens(scan, p, idx));
  }

  /** Counts the tokens of a block and writes them, if there are any. */
  method PutTokens(buf: array<nat>, at: nat, idx: nat, m: Word, ghost scan: Scan, ghost p: seq<Byte>)
      returns (num: nat)
    requires |p| == 64 && MarksStarts(m, scan, p) && at <= buf.Length
    requires Tokens(scan, p, idx) != [] ==> idx + 64 <= U32 && at + 64 <= buf.Length
    modifies buf
    ensures num <= 64 && at + num <= buf.Length && buf[at..at + num] == Tokens(scan, p, idx)
    ensures forall i | 0 <= i < buf.Length && !(num > 0 && at <= i < at + 64) :: buf[i] == old(buf[i])
  {
    hide *;
    SameNumber(scan, p, m, idx);
    num := PutPositions(buf, at, idx, m);
    if num > 0 { TokensWritten(buf, at, idx, scan, p, m); }
  }

  method PutPositions(buf: array<nat>, at: nat, idx: nat, m: Word) returns (num: nat)
    requires Positions(m, 0) != [] ==> at + 64 <= buf.Length
    modifies buf
    ensures num == |Positions(m, 0)| <= 64 && (num > 0 ==> Written(buf[..], at, idx, Positions(m, 0), num))
    ensures forall i | 0 <= i < buf.Length && !(num > 0 && at <= i < at + 64) :: buf[i] == old(buf[i])
  {
    num := Popcount(m);
    if num != 0 { WriteTokens(buf, at, idx, m, num); }
  }

  lemma SameNumber(scan: Scan, p: seq<Byte>, m: Word, idx: nat)
    requires |p| == 64 && MarksStarts(m, scan, p)
    ensures |Positions(m, 0)| == |Tokens(scan, p, idx)|
  {
    hide Positions;
    PositionsAreTokens(scan, p, m, idx, 0);
    assert p[..0] == [] && p[0..] == p;
  }

  lemma TokensWritten(buf: array<nat>, at: nat, idx: nat, scan: Scan, p: seq<Byte>, m: Word)
    requires |p| == 64 && MarksStarts(m, scan, p) && idx + 64 <= U32
    requires Written(buf[..], at, idx, Positions(m, 0), |Positions(m, 0)|)
    ensures at + |Positions(m, 0)| <= buf.Length
    ensures buf[at..at + |Positions(m, 0)|] == Tokens(scan, p, idx)
  {
    WrittenIsTokens(buf[..], at, idx, scan, p, m);
    assert buf[at..at + |Positions(m, 0)|] == buf[..][at..at + |Positions(m, 0)|];
  }

  lemma TokensEmpty(text: seq<Byte>, at: nat)
    requires at <= |text|
    ensures TokensIn(text, at, at) == []
  {}

  /** Calls that stop at the given positions return, one after the other, these tokens. */
  ghost function Resumed(text: seq<Byte>, stops: seq<nat>): seq<nat>
    requires Stops(text, stops)
  {
    if |stops| == 1 then []
    else Resumed(text, stops[..|stops| - 1]) + TokensIn(text, stops[|stops| - 2], stops[|stops| - 1])
  }

  predicate Stops(text: seq<Byte>, stops: seq<nat>) {
    |stops| > 0 && (forall i, j | 0 <= i < j < |stops| :: stops[i] <= stops[j] <= |text|) &&
    stops[0] <= |text|
  }

  /** However the calls are cut, the tokens returned up to the end are those of the whole text. */
  lemma {:induction false} ResumedIsWhole(text: seq<Byte>, stops: seq<nat>)
    requires Stops(text, stops) && stops[0] == 0
    ensures Resumed(text, stops) == Tokens(START, text[..stops[|stops| - 1]], 0)
  {
    assert text[..0] == [];
    if |stops| > 1 {
      ResumedIsWhole(text, stops[..|stops| - 1]);
      var mid, hi := stops[|stops| - 2], stops[|stops| - 1];
      TokensExtend(text, 0, mid, hi);
    }
  }

  class Lexer {
    const text: seq<Byte>
    var first: nat
    var prevInString: Word
    var prevIsEscape: Word
    var prevIsWs: Word
    var idx: nat

    /** The carries hold scan state s. */
    predicate Carries(s: Scan)
      reads this
    {
      prevIsEscape == Carry(s.escaped) && prevInString == Fill(s.inString) && prevIsWs[63] == s.boundary
    }

    /** Until the text is used up, the fields hold the automaton's state after its first bytes. */
    ghost predicate Valid()
      reads this
    {
      && |text| <= U32
      && first <= |text|
      && (first < |text| ==> first % 64 == 0 && idx == first && Carries(Run(START, text[..first])))
    }

    constructor (input: seq<Byte>)
      requires |input| <= U32
      ensures Valid() && text == input && first == 0
    {
      text, first, idx := input, 0, 0;
      prevInString, prevIsEscape, prevIsWs := Fill(false), Fill(false), Fill(true);
      new;
      assert text[..0] == [];
    }

    /** The mask of token starts of a block, from the class masks and the carries. */
    method TokenMask(p: seq<Byte>, ghost scan: Scan) returns (m: Word)
      requires |p| == 64 && Carries(scan)
      modifies `prevIsEscape, `prevInString, `prevIsWs
      ensures Carries(Run(scan, p)) && MarksStarts(m, scan, p)
    {
      var b, q, s, w := Classify(p);
      var escaped, quotes, r;
      escaped, prevIsEscape := Escapes(b, prevIsEscape, scan, p);
      quotes, r, prevInString := Strings(q, escaped, prevInString, scan, p);
      BoundaryAgrees(scan, p, s, w);
      var ws := Or(s, w);
      var carry := Carry(prevIsWs[63]);
      var wt := Or(Shl(ws, 1), carry);
      assert carry == Carry(scan.boundary);
      prevIsWs := ws;
      m := StartMask(s, w, wt, r, quotes);
      StartMaskAgrees(scan, p, s, w, wt, r, quotes);
    }

    /** The next 64 bytes, or the rest of the text, nothing in the end, padded with spaces. */
    method TakeBlock(ghost s: Scan) returns (p: seq<Byte>)
      requires first <= |text| && (first < |text| ==> s == Run(START, text[..first]))
      modifies `first
      ensures |p| == 64 && first == Pos(|text|, old(first), 1)
      ensures Tokens(s, p, old(first)) == TokensIn(text, old(first), first)
      ensures first < |text| ==> p == text[old(first)..first]
    {
      var diff := |text| - first;
      if diff > 64 {
        p := text[first..first + 64];
        first := first + 64;
      } else {
        p := text[first..] + Spaces(64 - diff);
        SpacesAddNothing(Run(s, text[first..]), 64 - diff, first + diff);
        TokensAppend(s, text[first..], Spaces(64 - diff), first);
        assert text[first..|text|] == text[first..];
        first := |text|;
      }
    }

    /** Inside a call the fields hold the automaton's state s; at the end of the text they no longer matter. */
    ghost predicate Scanning(s: Scan)
      reads this
    {
      && |text| <= U32 && first <= |text| && Carries(s)
      && (first < |text| ==> first % 64 == 0 && idx == first && s == Run(START, text[..first]))
    }

    /** One block of the loop: its token mask, its tokens written from buf[at] on, the next idx. */
    method ReadBlock(p: seq<Byte>, ghost scan: Scan, buf: array<nat>, at: nat) returns (num: nat)
      requires |p| == 64 && Carries(scan) && at <= buf.Length
      requires Tokens(scan, p, idx) != [] ==> idx + 64 <= U32 && at + 64 <= buf.Length
      modifies buf, `prevIsEscape, `prevInString, `prevIsWs, `idx
      ensures Carries(Run(scan, p)) && idx == (old(idx) + 64) % U32
      ensures num <= 64 && at + num <= buf.Length && buf[at..at + num] == Tokens(scan, p, old(idx))
      ensures forall i | 0 <= i < buf.Length && !(num > 0 && at <= i < at + 64) :: buf[i] == old(buf[i])
    {
      var m := TokenMask(p, scan);
      num := PutTokens(buf, at, idx, m, scan, p);
      idx := (idx + 64) % U32;
    }

    /** The next block of the text, empty after the end: its tokens go to buf[at..at + num]. */
    method ReadNext(buf: array<nat>, at: nat, ghost s: Scan) returns (num: nat, ghost t: Scan)
      requires Scanning(s) && at <= buf.Length && (first < |text| ==> at + 64 <= buf.Length)
      modifies buf, this
      ensures Scanning(t) && first == Pos(|text|, old(first), 1)
      ensures num <= 64 && at + num <= buf.Length && buf[at..at + num] == TokensIn(text, old(first), first)
      ensures forall i | 0 <= i < buf.Length && !(num > 0 && at <= i < at + 64) :: buf[i] == old(buf[i])
    {
      hide Run, Tokens;
      ghost var before := first;
      var p := TakeBlock(s);
      TokensAnywhere(s, p, before, idx, text, first);
      num := ReadBlock(p, s, buf, at);
      t := Run(s, p);
      if first < |text| { RunExtend(text, before, first); }
    }

    /** One round of the loop: a block, and the count. */
    method Round(buf: array<nat>, at0: nat, count0: nat, size: nat, ghost from: nat, ghost i: nat, ghost s: Scan)
        returns (at: nat, count: nat, ghost t: Scan)
      requires from < |text| && Scanning(s) && first == Pos(|text|, from, i) && Going(text, from, size, i)
      requires count0 == Count(text, from, i) && at0 == Found(text, from, i) <= buf.Length
      requires size + 64 <= buf.Length && buf[..at0] == TokensIn(text, from, first)
      modifies buf, this
      ensures Scanning(t) && first == Pos(|text|, from, i + 1)
      ensures count == Count(text, from, i + 1) && at == Found(text, from, i + 1) <= buf.Length
      ensures buf[..at] == TokensIn(text, from, first)
      ensures forall k | size + 64 <= k < buf.Length :: buf[k] == old(buf[k])
    {
      hide TokensIn;
      ghost var before, sofar := first, buf[..at0];
      RoomBefore(text, from, size, i);
      var num;
      num, t := ReadNext(buf, at0, s);
      count := Counted(count0, first == |text|, num);
      at := at0 + num;
      CountNext(text, from, i + 1);
      TokensExtend(text, from, before, first);
      Joined(buf, at0, at, sofar);
    }

    /** The loop of Read, which ends with the round that makes the count greater than the size. */
    method Rounds(buf: array<nat>, size: nat, ghost last: nat) returns (count: nat)
      requires Valid() && first < |text| && size + 64 <= buf.Length && EndsAt(text, first, size, last)
      modifies this, buf
      ensures Valid() && first == Pos(|text|, old(first), last)
      ensures count == Count(text, old(first), last) && Found(text, old(first), last) <= buf.Length
      ensures buf[..Found(text, old(first), last)] == TokensIn(text, old(first), first)
      ensures forall k | size + 64 <= k < buf.Length :: buf[k] == old(buf[k])
    {
      TokensEmpty(text, first);
      ghost var from := first;
      count := 0;
      var at := 0;
      ghost var i: nat, s := 0, Run(START, text[..first]);
      while true
        invariant i < last && Going(text, from, size, i)
        invariant Scanning(s) && first == Pos(|text|, from, i)
        invariant count == Count(text, from, i) && at == Found(text, from, i) <= buf.Length
        invariant buf[..at] == TokensIn(text, from, first)
        invariant forall k | size + 64 <= k < buf.Length :: buf[k] == old(buf[k])
        decreases last - i
      {
        at, count, s := Round(buf, at, count, size, from, i, s);
        i := i + 1;
        if !(count <= size) {
          break;
        }
      }
    }

    /**
     Reads blocks until the count, flagged at the end of the text, is greater than tokenBufSize. The
     tokens found are exactly those of the bytes passed, whatever calls came before. The call is
     one that ends; SmallIsRight, EndsIff and AlwaysRightIff say which do, and what they return.
     */
    method Read(buf: array<nat>, tokenBufSize: nat) returns (found: nat, ghost blocks: nat)
      requires Valid() && tokenBufSize + 64 <= buf.Length
      requires first < |text| ==> Ends(text, first, tokenBufSize)
      modifies this, buf
      ensures Valid() && old(first) <= first
      ensures old(first) == |text| ==> found == 0 && first == |text| && buf[..] == old(buf[..])
      ensures old(first) < |text| ==>
        && EndsAt(text, old(first), tokenBufSize, blocks) && first == Pos(|text|, old(first), blocks) > old(first)
        && found == Count(text, old(first), blocks) % BIG_MASK
      ensures var n := |TokensIn(text, old(first), first)|;
        n <= buf.Length && buf[..n] == TokensIn(text, old(first), first)
      ensures tokenBufSize + 64 < BIG_MASK ==>
        && found == |TokensIn(text, old(first), first)| <= tokenBufSize + 64
        && (first == |text| || found > tokenBufSize)
      ensures forall i | tokenBufSize + 64 <= i < buf.Length :: buf[i] == old(buf[i])
    {
      if first == |text| {
        TokensEmpty(text, first);
        return 0, 0;
      }
      ghost var from := first;
      blocks := LastRound(text, from, tokenBufSize);
      var count := Rounds(buf, tokenBufSize, blocks);
      found := count % BIG_MASK;
      if tokenBufSize + 64 < BIG_MASK { SmallIsRight(text, from, tokenBufSize); }
    }
  }

  lemma Joined(buf: array<nat>, at: nat, end: nat, sofar: seq<nat>)
    requires at <= end <= buf.Length && |sofar| == at && forall i | 0 <= i < at :: buf[i] == sofar[i]
    ensures buf[..end] == sofar + buf[at..end]
  {}

  lemma LastRound(text: seq<Byte>, from: nat, size: nat) returns (j: nat)
    requires from <= |text| && Ends(text, from, size)
    ensures EndsAt(text, from, size, j)
  {
    j :| EndsAt(text, from, size, j);
  }

  /** While the loop goes on, there is room for another block. */
  lemma RoomBefore(text: seq<Byte>, from: nat, size: nat, i: nat)
    requires from < |text| <= U32 && Going(text, from, size, i)
    ensures Pos(|text|, from, i) < |text| ==> Found(text, from, i) <= size
    ensures Pos(|text|, from, i) == |text| ==> TokensIn(text, |text|, |text|) == []
  {
    TokensEmpty(text, |text|);
    if Pos(|text|, from, i) < |text| { RoomAt(text, from, size, i); }
  }

  lemma RoomAt(text: seq<Byte>, from: nat, size: nat, i: nat)
    requires from < |text| <= U32 && Pos(|text|, from, i) < |text| && Going(text, from, size, i)
    ensures Found(text, from, i) <= size
  {
    CountBefore(text, from, i);
    if i > 0 { assert Count(text, from, i) <= size; } else { TokensEmpty(text, from); }
  }

  /** Where there are no tokens it does not matter what they are counted from. */
  lemma TokensAnywhere(s: Scan, p: seq<Byte>, base: nat, idx: nat, text: seq<Byte>, hi: nat)
    requires |p| == 64 && base <= hi <= |text| && Tokens(s, p, base) == TokensIn(text, base, hi)
    requires base < |text| ==> idx == base
    ensures Tokens(s, p, idx) == TokensIn(text, base, hi)
  {
    if base == |text| {
      TokensEmpty(text, base);
      SameTokens(s, p, base, idx);
    }
  }

  lemma {:induction false} SameTokens(s: Scan, p: seq<Byte>, base: nat, idx: nat)
    requires Tokens(s, p, base) == []
    ensures Tokens(s, p, idx) == []
    decreases |p|
  {
    if p != [] { SameTokens(Step(s, p[0]), p[1..], base + 1, idx + 1); }
  }

  /** `S |= (WT & ~W); S &= ~R; S |= Q;` */
  function StartMask(s: Word, w: Word, wt: Word, r: Word, quotes: Word): Word {
    Or(And(Or(s, And(wt, Not(w))), Not(r)), quotes)
  }

  /** The mask formula for token starts agrees with the automaton. */
  lemma StartMaskAgrees(scan: Scan, p: seq<Byte>, s: Word, w: Word, wt: Word, r: Word, quotes: Word)
    requires |p| == 64 && Marks(s, p, 2) && Marks(w, p, 3)
    requires MarksBoundary(wt, scan, p) && MarksInString(r, scan, p) && MarksQuotes(quotes, scan, p)
    ensures MarksStarts(StartMask(s, w, wt, r, quotes), scan, p)
  {
    forall k | 0 <= k < 64
      ensures StartMask(s, w, wt, r, quotes)[k] <==> StartsToken(Run(scan, p[..k]), p[k])
    {
      RunStep(scan, p, k);
    }
  }

  /** Padding with spaces adds no token. */
  lemma {:induction false} SpacesAddNothing(s: Scan, n: nat, base: nat)
    ensures Tokens(s, Spaces(n), base) == []
    decreases n
  {
    if n > 0 {
      assert Spaces(n)[1..] == Spaces(n - 1);
      SpacesAddNothing(Step(s, 32), n - 1, base + 1);
    }
  }

  lemma BoundaryAfter(scan: Scan, p: seq<Byte>, s: Word, w: Word, k: nat)
    requires |p| == 64 && k < 64 && Marks(s, p, 2) && Marks(w, p, 3)
    ensures Or(s, w)[k] <==> Run(scan, p[..k + 1]).boundary
  {
    RunStep(scan, p, k);
  }

  lemma BoundaryBefore(scan: Scan, p: seq<Byte>, s: Word, w: Word, k: nat)
    requires |p| == 64 && k < 64 && Marks(s, p, 2) && Marks(w, p, 3)
    ensures Or(Shl(Or(s, w), 1), Carry(scan.boundary))[k] <==> Run(scan, p[..k]).boundary
  {
    if k == 0 { assert p[..0] == []; } else { BoundaryAfter(scan, p, s, w, k - 1); }
  }

  /** Whitespace or structural bytes, moved up one byte, are the automaton's boundaries. */
  lemma BoundaryAgrees(scan: Scan, p: seq<Byte>, s: Word, w: Word)
    requires |p| == 64 && Marks(s, p, 2) && Marks(w, p, 3)
    ensures MarksBoundary(Or(Shl(Or(s, w), 1), Carry(scan.boundary)), scan, p)
    ensures Or(s, w)[63] <==> Run(scan, p).boundary
  {
    forall k | 0 <= k < 64
      ensures Or(Shl(Or(s, w), 1), Carry(scan.boundary))[k] <==> Run(scan, p[..k]).boundary
    {
      BoundaryBefore(scan, p, s, w, k);
    }
    BoundaryAfter(scan, p, s, w, 63);
    assert p[..64] == p;
  }
}
