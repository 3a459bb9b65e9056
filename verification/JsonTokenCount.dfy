/**
 How the lexer counts the tokens of one call: in 32 bits, with a flag bit for the end of the
 text. When the call ends, and when the count that it returns is right.
 */
module JsonTokenCount {
  import opened JsonBytes
  import opened JsonAutomaton

  const U32: nat := 0x1_0000_0000
  /** The flag kept in the token count once the last block is taken. */
  const BIG_MASK: nat := 0x8000_0000

  /** The tokens of text[lo..hi], as the automaton marks them. */
  ghost function TokensIn(text: seq<Byte>, lo: nat, hi: nat): (ts: seq<nat>)
    requires lo <= hi <= |text|
    ensures |ts| <= hi - lo
  {
    Tokens(Run(START, text[..lo]), text[lo..hi], lo)
  }

  lemma RunExtend(text: seq<Byte>, mid: nat, hi: nat)
    requires mid <= hi <= |text|
    ensures Run(START, text[..hi]) == Run(Run(START, text[..mid]), text[mid..hi])
  {
    assert text[..hi] == text[..mid] + text[mid..hi];
    RunAppend(START, text[..mid], text[mid..hi]);
  }

  lemma TokensExtend(text: seq<Byte>, lo: nat, mid: nat, hi: nat)
    requires lo <= mid <= hi <= |text|
    ensures TokensIn(text, lo, hi) == TokensIn(text, lo, mid) + TokensIn(text, mid, hi)
  {
    assert text[lo..hi] == text[lo..mid] + text[mid..hi];
    TokensAppend(Run(START, text[..lo]), text[lo..mid], text[mid..hi], lo);
    RunExtend(text, lo, mid);
  }

  /** The tokens of a stretch, told from the text alone. */
  lemma TokenInIff(text: seq<Byte>, lo: nat, hi: nat, k: nat)
    requires lo <= k < hi <= |text|
    ensures k in TokensIn(text, lo, hi) <==>
      || (text[k] == QUOTE && BackslashRun(text[..k]) % 2 == 0)
      || (Quotes(text[..k]) % 2 == 0 && IsStructural(text[k]))
      || (Quotes(text[..k]) % 2 == 0 && !IsWhitespace(text[k]) &&
          (k == 0 || IsWhitespace(text[k - 1]) || IsStructural(text[k - 1])))
  {
    TokenIff(text, k);
    hide Tokens, Run, Quotes, BackslashRun;
    var s, p := Run(START, text[..lo]), text[lo..hi];
    TokensExact(START, text, 0, k);
    TokensExact(s, p, lo, k - lo);
    assert text[..lo] + p[..k - lo] == text[..k];
    RunAppend(START, text[..lo], p[..k - lo]);
  }

  lemma TokensInOrder(text: seq<Byte>, lo: nat, hi: nat)
    requires lo <= hi <= |text|
    ensures forall j | 0 <= j < |TokensIn(text, lo, hi)| :: lo <= TokensIn(text, lo, hi)[j] < hi
    ensures forall i, j | 0 <= i < j < |TokensIn(text, lo, hi)| :: TokensIn(text, lo, hi)[i] < TokensIn(text, lo, hi)[j]
  {
    TokensIncrease(Run(START, text[..lo]), text[lo..hi], lo);
  }

  // One call, block by block.

  /** The position after j blocks. */
  function Pos(length: nat, from: nat, j: nat): (p: nat)
    requires from <= length
    ensures from <= p <= length
  {
    if from + 64 * j < length then from + 64 * j else length
  }

  /** How many tokens j blocks hold. */
  ghost function Found(text: seq<Byte>, from: nat, j: nat): nat
    requires from <= |text|
  {
    |TokensIn(text, from, Pos(|text|, from, j))|
  }

  /** `count |= big_mask` */
  function Flagged(count: nat): nat {
    if count < BIG_MASK then count + BIG_MASK else count
  }

  /** The count after one more block, of num tokens, which may be the last. */
  function Counted(count: nat, last: bool, num: nat): (c: nat)
    ensures c < U32
  {
    ((if last then Flagged(count) else count) + num) % U32
  }

  /** The count after j blocks, if the loop goes on so long. */
  ghost function Count(text: seq<Byte>, from: nat, j: nat): (c: nat)
    requires from <= |text|
    ensures c < U32
  {
    if j == 0 then 0
    else
      FoundGrows(text, from, j - 1);
      Counted(Count(text, from, j - 1), Pos(|text|, from, j) == |text|, Found(text, from, j) - Found(text, from, j - 1))
  }

  /** The loop goes on after each of the first j blocks. */
  ghost predicate Going(text: seq<Byte>, from: nat, size: nat, j: nat)
    requires from <= |text|
  {
    forall i | 0 < i <= j :: Count(text, from, i) <= size
  }

  /** The loop ends after j blocks. */
  ghost predicate EndsAt(text: seq<Byte>, from: nat, size: nat, j: nat)
    requires from <= |text|
  {
    j > 0 && Count(text, from, j) > size && Going(text, from, size, j - 1)
  }

  ghost predicate Ends(text: seq<Byte>, from: nat, size: nat)
    requires from <= |text|
  {
    exists j :: EndsAt(text, from, size, j)
  }

  /** The call ends, and the number that it returns, the count without the flag, is right. */
  ghost predicate Right(text: seq<Byte>, from: nat, size: nat)
    requires from <= |text|
  {
    exists j :: EndsAt(text, from, size, j) && Count(text, from, j) % BIG_MASK == Found(text, from, j)
  }

  // What the count is.

  lemma FoundGrows(text: seq<Byte>, from: nat, j: nat)
    requires from <= |text|
    ensures Found(text, from, j) <= Found(text, from, j + 1) <= Found(text, from, j) + 64
    ensures Found(text, from, j + 1) == Found(text, from, j) +
      |TokensIn(text, Pos(|text|, from, j), Pos(|text|, from, j + 1))|
  {
    TokensExtend(text, from, Pos(|text|, from, j), Pos(|text|, from, j + 1));
  }

  lemma {:induction false} FoundMonotone(text: seq<Byte>, from: nat, i: nat, j: nat)
    requires from <= |text| && i <= j
    ensures Found(text, from, i) <= Found(text, from, j)
    decreases j
  {
    if i < j {
      FoundMonotone(text, from, i, j - 1);
      FoundGrows(text, from, j - 1);
    }
  }

  lemma CountNext(text: seq<Byte>, from: nat, j: nat)
    requires from <= |text| && j > 0
    ensures var num := |TokensIn(text, Pos(|text|, from, j - 1), Pos(|text|, from, j))|;
      && Found(text, from, j) == Found(text, from, j - 1) + num
      && num <= 64
      && Count(text, from, j) == Counted(Count(text, from, j - 1), Pos(|text|, from, j) == |text|, num)
  {
    hide TokensIn, Pos, Counted;
    FoundGrows(text, from, j - 1);
  }

  /** Without wrap-around. */
  lemma CountedIs(count: nat, last: bool, num: nat)
    requires (if last then BIG_MASK + count else count) + num < U32 && (last ==> count < BIG_MASK)
    ensures Counted(count, last, num) == (if last then BIG_MASK + count else count) + num
  {}

  /** After the end nothing is added. */
  lemma CountedNothing(count: nat)
    requires BIG_MASK <= count < U32
    ensures Counted(count, true, 0) == count
  {}

  /** Before the end the count is that of the tokens. */
  lemma {:induction false} CountBefore(text: seq<Byte>, from: nat, j: nat)
    requires from < |text| <= U32 && Pos(|text|, from, j) < |text|
    ensures Count(text, from, j) == Found(text, from, j)
  {
    if j > 0 {
      CountBefore(text, from, j - 1);
      CountNext(text, from, j);
      CountedIs(Found(text, from, j - 1), false, Found(text, from, j) - Found(text, from, j - 1));
    }
  }

  /** The number of blocks of the text. */
  function Blocks(length: nat, from: nat): (n: nat)
    requires from < length
    ensures n > 0 && Pos(length, from, n - 1) < length
    ensures forall j: nat :: Pos(length, from, j) == length <==> j >= n
  {
    (length - from + 63) / 64
  }

  /** With fewer than 2^31 tokens left, the count from the end of the text on is theirs and the flag. */
  lemma {:induction false} CountAfter(text: seq<Byte>, from: nat, j: nat)
    requires from < |text| <= U32 && Pos(|text|, from, j) == |text| && |TokensIn(text, from, |text|)| < BIG_MASK
    ensures Count(text, from, j) == BIG_MASK + |TokensIn(text, from, |text|)|
  {
    assert Pos(|text|, from, 0) == from;
    CountNext(text, from, j);
    if Pos(|text|, from, j - 1) == |text| {
      CountAfter(text, from, j - 1);
      CountedNothing(Count(text, from, j - 1));
    } else {
      CountAtEnd(text, from, j);
    }
  }

  lemma CountAtEnd(text: seq<Byte>, from: nat, j: nat)
    requires from < |text| <= U32 && j > 0 && Pos(|text|, from, j) == |text| > Pos(|text|, from, j - 1)
    requires Found(text, from, j) < BIG_MASK
    ensures Count(text, from, j) == BIG_MASK + Found(text, from, j)
  {
    CountBefore(text, from, j - 1);
    CountNext(text, from, j);
    CountedIs(Found(text, from, j - 1), true, Found(text, from, j) - Found(text, from, j - 1));
  }

  /** If any count is beyond the size, the loop ends. */
  lemma {:induction false} FirstBeyond(text: seq<Byte>, from: nat, size: nat, j: nat) returns (i: nat)
    requires from <= |text| && j > 0 && Count(text, from, j) > size
    ensures i <= j && EndsAt(text, from, size, i)
  {
    if Going(text, from, size, j - 1) {
      i := j;
    } else {
      var k :| 0 < k <= j - 1 && Count(text, from, k) > size;
      i := FirstBeyond(text, from, size, k);
    }
  }

  lemma EndsOnce(text: seq<Byte>, from: nat, size: nat, i: nat, j: nat)
    requires from <= |text| && EndsAt(text, from, size, i) && EndsAt(text, from, size, j)
    ensures i == j
  {}

  /** With more, adding the flag may wrap around once, and then the next block sets it again. */
  lemma {:induction false} CountLate(text: seq<Byte>, from: nat, j: nat)
    requires from < |text| <= U32 && j >= Blocks(|text|, from) && BIG_MASK <= |TokensIn(text, from, |text|)| < U32
    ensures var n := |TokensIn(text, from, |text|)|;
      Count(text, from, j) == n || (Count(text, from, j) == n - BIG_MASK && j == Blocks(|text|, from))
  {
    hide Count, Counted, TokensIn, Blocks;
    var n, last := |TokensIn(text, from, |text|)|, Blocks(|text|, from);
    CountNext(text, from, j);
    if j == last {
      CountBefore(text, from, j - 1);
      LateCounted(Found(text, from, j - 1), n);
    } else {
      CountLate(text, from, j - 1);
      CountedAgain(Count(text, from, j - 1), n);
    }
  }

  lemma CountedAgain(count: nat, n: nat)
    requires BIG_MASK <= n < U32 && (count == n || count == n - BIG_MASK)
    ensures Counted(count, true, 0) == n
  {}

  lemma LateCounted(found: nat, n: nat)
    requires found <= n && BIG_MASK <= n < U32
    ensures Counted(found, true, n - found) == if found < BIG_MASK then n - BIG_MASK else n
  {}

  /** The greatest count of a call that goes on past the end, with n tokens left. */
  function Greatest(n: nat): nat {
    if n < BIG_MASK then BIG_MASK + n else n
  }

  lemma CountAtMost(text: seq<Byte>, from: nat, j: nat)
    requires from < |text| <= U32 && |TokensIn(text, from, |text|)| < U32
    ensures Count(text, from, j) <= Greatest(|TokensIn(text, from, |text|)|)
  {
    if j < Blocks(|text|, from) {
      CountBefore(text, from, j);
      FoundMonotone(text, from, j, Blocks(|text|, from));
    } else if |TokensIn(text, from, |text|)| < BIG_MASK {
      CountAfter(text, from, j);
    } else {
      CountLate(text, from, j);
    }
  }

  /**
   With n tokens left the call ends exactly if the greatest count, 2^31 + n while n is below 2^31,
   is beyond the size asked for; and it ends with the text if the tokens are not too many for it.
   */
  lemma EndsIff(text: seq<Byte>, from: nat, size: nat)
    requires from < |text| <= U32 && |TokensIn(text, from, |text|)| < U32
    ensures var n := |TokensIn(text, from, |text|)|;
      && (Ends(text, from, size) <==> (if n < 0x8000_0000 then 0x8000_0000 + n else n) > size)
      && (n < BIG_MASK && n <= size < BIG_MASK + n ==> EndsAt(text, from, size, Blocks(|text|, from)))
  {
    var n, last := |TokensIn(text, from, |text|)|, Blocks(|text|, from);
    forall j ensures Count(text, from, j) <= Greatest(n) { CountAtMost(text, from, j); }
    if n < BIG_MASK {
      forall j | j < last ensures Count(text, from, j) <= n {
        CountBefore(text, from, j);
        FoundMonotone(text, from, j, last);
      }
      CountAfter(text, from, last);
      if BIG_MASK + n > size { var i := FirstBeyond(text, from, size, last); }
    } else {
      CountLate(text, from, last + 1);
      if n > size { var i := FirstBeyond(text, from, size, last + 1); }
    }
  }

  // When every call is right.

  lemma {:induction false} LastCounted(text: seq<Byte>, from: nat, size: nat, j: nat)
    requires from < |text| <= U32 && size + 64 < BIG_MASK && EndsAt(text, from, size, j)
    requires j <= Blocks(|text|, from)
    ensures Count(text, from, j) % BIG_MASK == Found(text, from, j) <= size + 64
    ensures Pos(|text|, from, j) == |text| || Found(text, from, j) > size
  {
    var last := Pos(|text|, from, j) == |text|;
    CountBefore(text, from, j - 1);
    CountNext(text, from, j);
    assert j > 1 ==> Count(text, from, j - 1) <= size;
    if last { CountAtEnd(text, from, j); } else { CountBefore(text, from, j); }
    Unflagged(Found(text, from, j), last);
  }

  lemma Unflagged(n: nat, last: bool)
    requires n < BIG_MASK
    ensures (if last then BIG_MASK + n else n) % BIG_MASK == n
  {}

  lemma LastIsBeyond(text: seq<Byte>, from: nat, size: nat, last: nat)
    requires from < |text| <= U32 && size + 64 < BIG_MASK && last == Blocks(|text|, from)
    requires Going(text, from, size, last - 1)
    ensures Count(text, from, last) > size
  {
    CountBefore(text, from, last - 1);
    CountNext(text, from, last);
    assert last > 1 ==> Count(text, from, last - 1) <= size;
    CountAtEnd(text, from, last);
  }

  lemma EndsByTheEnd(text: seq<Byte>, from: nat, size: nat) returns (j: nat)
    requires from < |text| <= U32 && size + 64 < BIG_MASK
    ensures EndsAt(text, from, size, j) && j <= Blocks(|text|, from)
  {
    var last := Blocks(|text|, from);
    if Going(text, from, size, last - 1) {
      j := last;
      LastIsBeyond(text, from, size, last);
    } else {
      var k :| 0 < k <= last - 1 && Count(text, from, k) > size;
      j := FirstBeyond(text, from, size, k);
    }
  }

  /** A call for a size that leaves 64 below 2^31 ends with the text or with more tokens, and is right. */
  lemma SmallIsRight(text: seq<Byte>, from: nat, size: nat)
    requires from < |text| <= U32 && size + 64 < BIG_MASK
    ensures Right(text, from, size)
    ensures forall j :: EndsAt(text, from, size, j) ==>
      && Count(text, from, j) % BIG_MASK == Found(text, from, j) <= size + 64
      && (Pos(|text|, from, j) == |text| || Found(text, from, j) > size)
  {
    var i := EndsByTheEnd(text, from, size);
    LastCounted(text, from, size, i);
    forall j | EndsAt(text, from, size, j) ensures j == i {
      EndsOnce(text, from, size, i, j);
    }
  }

  const BRACKET: Byte := 91

  function Brackets(n: nat): (p: seq<Byte>)
    ensures |p| == n && forall i | 0 <= i < n :: p[i] == BRACKET
  {
    seq(n, _ => BRACKET)
  }

  lemma {:induction false} BracketTokens(s: Scan, p: seq<Byte>, base: nat)
    requires !s.inString && forall i | 0 <= i < |p| :: p[i] == BRACKET
    ensures |Tokens(s, p, base)| == |p|
    decreases |p|
  {
    if p != [] { BracketTokens(Step(s, p[0]), p[1..], base + 1); }
  }

  lemma BracketCount(n: nat, j: nat)
    requires 64 * j < n <= U32
    ensures Count(Brackets(n), 0, j) == Found(Brackets(n), 0, j) == 64 * j
  {
    var text := Brackets(n);
    assert text[..0] == [];
    BracketTokens(START, text[0..64 * j], 0);
    CountBefore(text, 0, j);
  }

  /** Where the wrong count is returned for brackets. */
  lemma BracketsEnd(size: nat, n: nat, last: nat)
    requires BIG_MASK - 64 <= size < BIG_MASK && n == BIG_MASK + 64 && 64 * last == BIG_MASK
    ensures EndsAt(Brackets(n), 0, size, last)
    ensures Count(Brackets(n), 0, last) == Found(Brackets(n), 0, last) == BIG_MASK
  {
    forall i | 0 < i <= last ensures Count(Brackets(n), 0, i) == 64 * i {
      BracketCount(n, i);
    }
    BracketCount(n, last);
  }

  /** At 2^31 - 64, of 2^31 + 64 brackets 2^31 are found and 0 is returned. */
  lemma CountOverflows(size: nat, n: nat, last: nat)
    requires size == BIG_MASK - 64 && n == BIG_MASK + 64 && last == 0x200_0000
    ensures EndsAt(Brackets(n), 0, size, last)
    ensures Found(Brackets(n), 0, last) == BIG_MASK && Count(Brackets(n), 0, last) % BIG_MASK == 0
  {
    BracketsEnd(size, n, last);
  }

  /** A blank text has no tokens, so from size 2^31 on the call does not end. */
  lemma BlankNeverEnds(size: nat)
    requires size >= BIG_MASK
    ensures !Ends([32], 0, size)
  {
    var text: seq<Byte> := [32];
    assert text[..0] == [] && text[0..1] == text && text[1..] == [];
    assert TokensIn(text, 0, 1) == [];
    EndsIff(text, 0, size);
  }

  /** Every call for this size ends and returns the right number. */
  ghost predicate AlwaysRight(size: nat) {
    forall text: seq<Byte>, from: nat | from < |text| <= U32 && from % 64 == 0 :: Right(text, from, size)
  }

  lemma WrongFor(size: nat) returns (text: seq<Byte>)
    requires size + 64 >= BIG_MASK
    ensures 0 < |text| <= U32 && !Right(text, 0, size)
  {
    if size >= BIG_MASK {
      BlankNeverEnds(size);
      text := [32];
    } else {
      text := Brackets(BIG_MASK + 64);
      BracketsEnd(size, BIG_MASK + 64, 0x200_0000);
    }
  }

  /** All calls for a size are right exactly if it leaves 64 below 2^31. */
  lemma AlwaysRightIff(size: nat)
    ensures AlwaysRight(size) <==> size + 64 < 0x8000_0000
  {
    if size + 64 < BIG_MASK {
      forall text: seq<Byte>, from: nat | from < |text| <= U32 && from % 64 == 0 ensures Right(text, from, size) {
        SmallIsRight(text, from, size);
      }
    } else {
      var text := WrongFor(size);
    }
  }
}
