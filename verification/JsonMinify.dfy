/** The minifier: whitespace outside strings is dropped, also when the output overwrites the input. */
module JsonMinify {
  import opened Word64
  import opened JsonBytes
  import opened JsonAutomaton
  import opened JsonBlock

  const DIFF_0: seq<nat> :=
    [1, 2, 3, 4, 5, 6, 7, 8, 0, 1, 2, 3, 4, 5, 6, 7,
     1, 1, 2, 3, 4, 5, 6, 7, 0, 0, 1, 2, 3, 4, 5, 6]
  const DIFF_1: seq<nat> :=
    [1, 2, 2, 3, 4, 5, 6, 7, 0, 1, 1, 2, 3, 4, 5, 6,
     1, 1, 1, 2, 3, 4, 5, 6, 0, 0, 0, 1, 2, 3, 4, 5]
  const DIFF_2: seq<nat> :=
    [1, 2, 3, 3, 4, 5, 6, 7, 0, 1, 2, 2, 3, 4, 5, 6,
     1, 1, 2, 2, 3, 4, 5, 6, 0, 0, 1, 1, 2, 3, 4, 5]
  const DIFF_3: seq<nat> :=
    [1, 2, 2, 2, 3, 4, 5, 6, 0, 1, 1, 1, 2, 3, 4, 5,
     1, 1, 1, 1, 2, 3, 4, 5, 0, 0, 0, 0, 1, 2, 3, 4]

  const DIFF_TABLE: seq<nat> := DIFF_0 + DIFF_1 + DIFF_2 + DIFF_3

  function Num(b: bool): nat {
    if b then 1 else 0
  }

  /** `(W >> i) & 0x0F` */
  function Nibble(w: Word, i: nat): nat
    requires i + 4 <= 64
  {
    Num(w[i]) + 2 * Num(w[i + 1]) + 4 * Num(w[i + 2]) + 8 * Num(w[i + 3])
  }

  /** What a row of four entries must hold for a nibble with these bits. */
  predicate Counts(row: seq<nat>, at: nat, a: bool, b: bool, c: bool, d: bool) {
    && at + 4 <= |row|
    && row[at] == Num(!a)
    && row[at + 1] == Num(!a) + Num(!b)
    && row[at + 2] == Num(!a) + Num(!b) + Num(!c)
    && row[at + 3] == Num(!a) + Num(!b) + Num(!c) + Num(!d)
  }

  lemma Diff0Counts(a: bool, b: bool)
    ensures |DIFF_0| == 32 && Counts(DIFF_0, 8 * Num(a) + 16 * Num(b), a, b, false, false)
  {}

  lemma Diff1Counts(a: bool, b: bool)
    ensures |DIFF_1| == 32 && Counts(DIFF_1, 8 * Num(a) + 16 * Num(b), a, b, true, false)
  {}

  lemma Diff2Counts(a: bool, b: bool)
    ensures |DIFF_2| == 32 && Counts(DIFF_2, 8 * Num(a) + 16 * Num(b), a, b, false, true)
  {}

  lemma Diff3Counts(a: bool, b: bool)
    ensures |DIFF_3| == 32 && Counts(DIFF_3, 8 * Num(a) + 16 * Num(b), a, b, true, true)
  {}

  lemma FourRows(a: seq<nat>, b: seq<nat>, c: seq<nat>, d: seq<nat>, k: nat)
    requires k < 32 && |a| == |b| == |c| == |d| == 32
    ensures |a + b + c + d| == 128
    ensures (a + b + c + d)[k] == a[k] && (a + b + c + d)[32 + k] == b[k]
    ensures (a + b + c + d)[64 + k] == c[k] && (a + b + c + d)[96 + k] == d[k]
  {}

  lemma NibbleCounts(a: bool, b: bool, c: bool, d: bool)
    ensures Counts(DIFF_TABLE, 8 * (Num(a) + 2 * Num(b) + 4 * Num(c) + 8 * Num(d)), a, b, c, d)
  {
    Diff0Counts(a, b);
    Diff1Counts(a, b);
    Diff2Counts(a, b);
    Diff3Counts(a, b);
    var k := 8 * Num(a) + 16 * Num(b);
    FourRows(DIFF_0, DIFF_1, DIFF_2, DIFF_3, k);
    FourRows(DIFF_0, DIFF_1, DIFF_2, DIFF_3, k + 1);
    FourRows(DIFF_0, DIFF_1, DIFF_2, DIFF_3, k + 2);
    FourRows(DIFF_0, DIFF_1, DIFF_2, DIFF_3, k + 3);
  }

  /** The table counts, for a nibble of dropped bytes, how many of its first bytes are left. */
  lemma DiffTableCounts(w: Word, i: nat)
    requires i + 4 <= 64
    ensures |DIFF_TABLE| == 128 && Nibble(w, i) < 16
    ensures Counts(DIFF_TABLE, Nibble(w, i) * 8, w[i], w[i + 1], w[i + 2], w[i + 3])
  {
    NibbleCounts(w[i], w[i + 1], w[i + 2], w[i + 3]);
    Diff0Counts(false, false);
    Diff1Counts(false, false);
    Diff2Counts(false, false);
    Diff3Counts(false, false);
    FourRows(DIFF_0, DIFF_1, DIFF_2, DIFF_3, 0);
  }

  // Copying what a mask leaves.

  function Survivor(w: Word, p: seq<Byte>, k: nat): seq<Byte>
    requires |p| == 64 && k < 64
  {
    if w[k] then [] else [p[k]]
  }

  /** The first j bytes of a block without those that the mask drops. */
  function KeptBy(w: Word, p: seq<Byte>, j: nat): (r: seq<Byte>)
    requires |p| == 64 && j <= 64
    ensures |r| <= j
  {
    if j == 0 then [] else KeptBy(w, p, j - 1) + Survivor(w, p, j - 1)
  }

  lemma KeptByFour(w: Word, p: seq<Byte>, i: nat)
    requires |p| == 64 && i + 4 <= 64
    ensures KeptBy(w, p, i + 4) ==
      KeptBy(w, p, i) + Survivor(w, p, i) + Survivor(w, p, i + 1) + Survivor(w, p, i + 2) + Survivor(w, p, i + 3)
  {
    assert KeptBy(w, p, i + 2) == KeptBy(w, p, i + 1) + Survivor(w, p, i + 1);
    assert KeptBy(w, p, i + 3) == KeptBy(w, p, i + 2) + Survivor(w, p, i + 2);
  }

  /** The four table entries for the mask bits i to i + 3. */
  method TableRow(w: Word, i: nat) returns (t0: nat, t1: nat, t2: nat, t3: nat)
    requires i + 4 <= 64
    ensures t0 == Num(!w[i]) && t1 == t0 + Num(!w[i + 1])
    ensures t2 == t1 + Num(!w[i + 2]) && t3 == t2 + Num(!w[i + 3])
  {
    hide Nibble, Num;
    DiffTableCounts(w, i);
    var x, table: seq<nat> := Nibble(w, i) * 8, DIFF_TABLE;
    assert Counts(table, x, w[i], w[i + 1], w[i + 2], w[i + 3]);
    t0, t1, t2, t3 := table[x], table[x + 1], table[x + 2], table[x + 3];
  }

  /** Writes a byte after those from base on; if it is to be dropped, the next one overwrites it. */
  method PutByte(dst: array<Byte>, ghost base: nat, e: nat, ptr: array<Byte>, at: nat, ghost w: Word, i: nat,
      ghost p: seq<Byte>)
    requires |p| == 64 && i < 64 && base <= e < dst.Length && at + i < ptr.Length && ptr[at + i] == p[i]
    modifies dst
    ensures dst[base..e + Num(!w[i])] == old(dst[base..e]) + Survivor(w, p, i)
    ensures forall k | 0 <= k < dst.Length && k != e :: dst[k] == old(dst[k])
  {
    dst[e] := ptr[at + i];
  }

  /** One step of the copying loop: four bytes at once, each at its place in the table. */
  method CopyFour(dst: array<Byte>, ghost base: nat, d: nat, ptr: array<Byte>, at: nat, w: Word, i: nat,
      ghost p: seq<Byte>) returns (e: nat)
    requires |p| == 64 && i + 4 <= 64
    requires base <= d && d + 4 <= dst.Length && at + i + 4 <= ptr.Length
    requires dst == ptr ==> d <= at + i
    requires forall k | i <= k < i + 4 :: ptr[at + k] == p[k]
    modifies dst
    ensures d <= e <= d + 4
    ensures dst[base..e] ==
      old(dst[base..d]) + Survivor(w, p, i) + Survivor(w, p, i + 1) + Survivor(w, p, i + 2) + Survivor(w, p, i + 3)
    ensures forall k | 0 <= k < dst.Length && !(d <= k < d + 4) :: dst[k] == old(dst[k])
  {
    hide Survivor;
    var t0, t1, t2, t3 := TableRow(w, i);
    CopyPair(dst, base, d, t0, ptr, at, w, i, p);
    CopyPair(dst, base, d + t1, t2 - t1, ptr, at, w, i + 2, p);
    e := d + t3;
  }

  /** Two bytes of the four. */
  method CopyPair(dst: array<Byte>, ghost base: nat, d: nat, t: nat, ptr: array<Byte>, at: nat, ghost w: Word, i: nat,
      ghost p: seq<Byte>)
    requires |p| == 64 && i + 2 <= 64 && t == Num(!w[i])
    requires base <= d && d + 2 <= dst.Length && at + i + 2 <= ptr.Length && (dst == ptr ==> d <= at + i)
    requires ptr[at + i] == p[i] && ptr[at + i + 1] == p[i + 1]
    modifies dst
    ensures dst[base..d + t + Num(!w[i + 1])] == old(dst[base..d]) + Survivor(w, p, i) + Survivor(w, p, i + 1)
    ensures forall k | 0 <= k < dst.Length && !(d <= k < d + 2) :: dst[k] == old(dst[k])
  {
    PutByte(dst, base, d, ptr, at, w, i, p);
    PutByte(dst, base, d + t, ptr, at, w, i + 1, p);
  }

  /** The copying loop, four bytes at a time while four are left. */
  method CopyFours(dst: array<Byte>, d: nat, ptr: array<Byte>, at: nat, w: Word, n: nat, ghost p: seq<Byte>)
      returns (e: nat, i: nat)
    requires |p| == 64 && n <= 64
    requires d + n <= dst.Length && at + n <= ptr.Length
    requires dst == ptr ==> d <= at
    requires forall k | 0 <= k < n :: ptr[at + k] == p[k]
    modifies dst
    ensures i <= n < i + 4 && d <= e <= d + i && dst[d..e] == KeptBy(w, p, i)
    ensures forall k | i <= k < n :: ptr[at + k] == p[k]
    ensures forall k | 0 <= k < dst.Length && !(d <= k < d + i) :: dst[k] == old(dst[k])
  {
    hide *;
    e, i := d, 0;
    while i + 4 <= n
      invariant i <= n && d <= e <= d + i && dst[d..e] == KeptBy(w, p, i)
      invariant forall k | i <= k < n :: ptr[at + k] == p[k]
      invariant forall k | 0 <= k < dst.Length && !(d <= k < d + i) :: dst[k] == old(dst[k])
    {
      KeptByFour(w, p, i);
      e := CopyFour(dst, d, e, ptr, at, w, i, p);
      i := i + 4;
    }
  }

  /** One byte, written only if it is kept. */
  method CopyOne(dst: array<Byte>, ghost base: nat, d: nat, ptr: array<Byte>, at: nat, w: Word, i: nat,
      ghost p: seq<Byte>) returns (e: nat)
    requires |p| == 64 && i < 64 && base <= d < dst.Length && at + i < ptr.Length && ptr[at + i] == p[i]
    modifies dst
    ensures d <= e <= d + 1 && dst[base..e] == old(dst[base..d]) + Survivor(w, p, i)
    ensures forall k | 0 <= k < dst.Length && k != d :: dst[k] == old(dst[k])
  {
    if !w[i] { PutByte(dst, base, d, ptr, at, w, i, p); }
    e := d + Num(!w[i]);
  }

  /** The copying loop, one byte at a time for the last few. */
  method CopyRest(dst: array<Byte>, d: nat, ptr: array<Byte>, at: nat, w: Word, n: nat, ghost p: seq<Byte>,
      e0: nat, i0: nat) returns (e: nat)
    requires |p| == 64 && i0 <= n <= 64
    requires d + n <= dst.Length && at + n <= ptr.Length
    requires dst == ptr ==> d <= at
    requires d <= e0 <= d + i0 && dst[d..e0] == KeptBy(w, p, i0)
    requires forall k | i0 <= k < n :: ptr[at + k] == p[k]
    modifies dst
    ensures d <= e <= d + n && dst[d..e] == KeptBy(w, p, n)
    ensures forall k | 0 <= k < dst.Length && !(d <= k < d + n) :: dst[k] == old(dst[k])
  {
    hide Survivor;
    e := e0;
    var i := i0;
    while i < n
      invariant i0 <= i <= n && d <= e <= d + i && dst[d..e] == KeptBy(w, p, i)
      invariant forall k | i <= k < n :: ptr[at + k] == p[k]
      invariant forall k | 0 <= k < dst.Length && !(d <= k < d + i) :: dst[k] == old(dst[k])
    {
      assert KeptBy(w, p, i + 1) == KeptBy(w, p, i) + Survivor(w, p, i);
      e := CopyOne(dst, d, e, ptr, at, w, i, p);
      i := i + 1;
    }
  }

  // From the mask to the automaton.

  lemma {:induction false} KeptByIsKept(s: Scan, p: seq<Byte>, w: Word, n: nat)
    requires |p| == 64 && n <= 64 && MarksBlanks(w, s, p)
    ensures KeptBy(w, p, n) == Kept(s, p[..n])
  {
    if n > 0 {
      KeptByIsKept(s, p, w, n - 1);
      assert p[..n] == p[..n - 1] + [p[n - 1]];
      KeptAppend(s, p[..n - 1], [p[n - 1]]);
      assert Kept(Run(s, p[..n - 1]), [p[n - 1]]) == Survivor(w, p, n - 1);
    }
  }

  lemma BlanksAgree(s: Scan, p: seq<Byte>, w: Word, r: Word, quotes: Word)
    requires |p| == 64 && Marks(w, p, 3) && MarksInString(r, s, p) && MarksQuotes(quotes, s, p)
    ensures MarksBlanks(And(w, Not(Or(r, quotes))), s, p)
  {
    forall k | 0 <= k < 64
      ensures And(w, Not(Or(r, quotes)))[k] <==> IsBlank(Run(s, p[..k]), p[k])
    {
      RunStep(s, p, k);
    }
  }

  /** The whitespace outside strings of a block, and the carries into the next one. */
  method BlankMask(p: seq<Byte>, prevIsEscape: Word, prevInString: Word, ghost s: Scan)
      returns (w: Word, nextIsEscape: Word, nextInString: Word)
    requires |p| == 64 && prevIsEscape == Carry(s.escaped) && prevInString == Fill(s.inString)
    ensures MarksBlanks(w, s, p)
    ensures nextIsEscape == Carry(Run(s, p).escaped) && nextInString == Fill(Run(s, p).inString)
  {
    var b, q, st, ws := Classify(p);
    var escaped, quotes, r;
    escaped, nextIsEscape := Escapes(b, prevIsEscape, s, p);
    quotes, r, nextInString := Strings(q, escaped, prevInString, s, p);
    w := And(ws, Not(Or(r, quotes)));
    BlanksAgree(s, p, ws, r, quotes);
  }

  /** Where the bytes of the next block are: in the input, or padded with spaces in a buffer of 64. */
  method TakeBlock(src: array<Byte>, first: nat, last: nat) returns (ptr: array<Byte>, at: nat, n: nat)
    requires first < last <= src.Length
    ensures at + 64 <= ptr.Length && n <= 64 && first + n <= last
    ensures if last - first >= 64 then ptr == src && at == first && n == 64 else fresh(ptr) && n == last - first
    ensures ptr[at..at + n] == src[first..first + n]
  {
    var diff := last - first;
    if diff >= 64 {
      ptr, at, n := src, first, 64;
    } else {
      var stk := new Byte[64](_ => 32);
      var k := 0;
      while k < diff
        invariant 0 <= k <= diff && forall j | 0 <= j < k :: stk[j] == src[first + j]
      {
        stk[k] := src[first + k];
        k := k + 1;
      }
      ptr, at, n := stk, 0, diff;
    }
  }

  /** One block: what it keeps goes to dst[d..e], and the carries move on. */
  method MinifyBlock(dst: array<Byte>, d: nat, src: array<Byte>, first: nat, last: nat,
      prevIsEscape: Word, prevInString: Word, ghost s: Scan)
      returns (e: nat, n: nat, nextIsEscape: Word, nextInString: Word)
    requires first < last <= src.Length && d + (last - first) <= dst.Length
    requires dst == src ==> d <= first
    requires prevIsEscape == Carry(s.escaped) && prevInString == Fill(s.inString)
    modifies dst
    ensures n == if last - first >= 64 then 64 else last - first
    ensures d <= e <= d + n && dst[d..e] == Kept(s, old(src[first..first + n]))
    ensures n == 64 ==> var t := Run(s, old(src[first..first + n]));
      nextIsEscape == Carry(t.escaped) && nextInString == Fill(t.inString)
    ensures forall k | 0 <= k < dst.Length && !(d <= k < d + n) :: dst[k] == old(dst[k])
  {
    hide *;
    var ptr, at;
    ptr, at, n := TakeBlock(src, first, last);
    var p := ptr[at..at + 64];
    assert p[..n] == src[first..first + n];
    var w;
    w, nextIsEscape, nextInString := BlankMask(p, prevIsEscape, prevInString, s);
    KeptByIsKept(s, p, w, n);
    assert n == 64 ==> p == p[..n];
    var i;
    e, i := CopyFours(dst, d, ptr, at, w, n, p);
    e := CopyRest(dst, d, ptr, at, w, n, p, e, i);
  }

  /** The next block of the input, after i bytes of which kept is left. */
  method MinifyNext(dst: array<Byte>, d0: nat, d: nat, src: array<Byte>, ghost first: nat, f: nat, last: nat,
      prevIsEscape: Word, prevInString: Word, ghost text: seq<Byte>, ghost s: Scan, ghost kept: seq<Byte>)
      returns (e: nat, n: nat, nextIsEscape: Word, nextInString: Word, ghost t: Scan, ghost more: seq<Byte>)
    requires first <= f < last <= src.Length && |text| == last - first && d0 + (last - first) <= dst.Length
    requires d0 <= d <= d0 + (f - first) && (dst == src ==> d0 <= first)
    requires Done(text, f - first, s, kept) && dst[d0..d] == kept
    requires prevIsEscape == Carry(s.escaped) && prevInString == Fill(s.inString)
    requires forall k | f <= k < last :: src[k] == text[k - first]
    modifies dst
    ensures 0 < n <= last - f && d <= e <= d + n
    ensures Done(text, f + n - first, t, more) && dst[d0..e] == more
    ensures f + n < last ==> nextIsEscape == Carry(t.escaped) && nextInString == Fill(t.inString)
    ensures forall k | 0 <= k < dst.Length && !(d <= k < d + n) :: dst[k] == old(dst[k])
  {
    hide *;
    ghost var i, m := f - first, if last - f >= 64 then 64 else last - f;
    ghost var block := text[i..i + m];
    SameSlice(src[..], text, f, first, m);
    NextBlock(text, i, m, s, kept);
    e, n, nextIsEscape, nextInString := MinifyBlock(dst, d, src, f, last, prevIsEscape, prevInString, s);
    assert dst[d0..d] == kept;
    Appended(dst, d0, d, e);
    t, more := Run(s, block), kept + Kept(s, block);
  }

  lemma Appended(a: array<Byte>, d: nat, e: nat, f: nat)
    requires d <= e <= f <= a.Length
    ensures a[d..f] == a[d..e] + a[e..f]
  {}

  /**
   Drops the whitespace outside strings of src[first..last] and writes the rest to dst from
   d0 on, within as many slots as the input has bytes. The output may overwrite the input.
   */
  method Minify(dst: array<Byte>, d0: nat, src: array<Byte>, first: nat, last: nat) returns (d: nat)
    requires first <= last <= src.Length && d0 + (last - first) <= dst.Length
    requires dst == src ==> d0 <= first
    modifies dst
    ensures d0 <= d <= d0 + (last - first)
    ensures dst[d0..d] == Kept(START, old(src[first..last]))
    ensures forall k | 0 <= k < dst.Length && !(d0 <= k < d0 + (last - first)) :: dst[k] == old(dst[k])
  {
    hide Kept;
    d := d0;
    var f := first;
    var prevInString, prevIsEscape := Fill(false), Fill(false);
    ghost var text, s, kept := src[first..last], START, [];
    assert Done(text, 0, START, []) by { assert text[..0] == []; }
    while f != last
      invariant first <= f <= last && d0 <= d <= d0 + (f - first)
      invariant Done(text, f - first, s, kept) && dst[d0..d] == kept
      invariant f < last ==> prevIsEscape == Carry(s.escaped) && prevInString == Fill(s.inString)
      invariant forall k | f <= k < last :: src[k] == text[k - first]
      invariant forall k | 0 <= k < dst.Length && !(d0 <= k < d0 + (f - first)) :: dst[k] == old(dst[k])
    {
      var n;
      d, n, prevIsEscape, prevInString, s, kept :=
        MinifyNext(dst, d0, d, src, first, f, last, prevIsEscape, prevInString, text, s, kept);
      f := f + n;
    }
    assert text[..last - first] == text;
  }

  lemma SameSlice(b: seq<Byte>, text: seq<Byte>, f: nat, first: nat, n: nat)
    requires first <= f && f + n <= |b| && f - first + n <= |text|
    requires forall k | f <= k < f + n :: b[k] == text[k - first]
    ensures b[f..f + n] == text[f - first..f - first + n]
  {}

  /** The first i bytes of the text lead to state s and keep the bytes kept. */
  ghost predicate Done(text: seq<Byte>, i: nat, s: Scan, kept: seq<Byte>) {
    i <= |text| && s == Run(START, text[..i]) && kept == Kept(START, text[..i])
  }

  lemma NextBlock(text: seq<Byte>, i: nat, n: nat, s: Scan, kept: seq<Byte>)
    requires i + n <= |text| && Done(text, i, s, kept)
    ensures Done(text, i + n, Run(s, text[i..i + n]), kept + Kept(s, text[i..i + n]))
  {
    assert text[..i + n] == text[..i] + text[i..i + n];
    RunAppend(START, text[..i], text[i..i + n]);
    KeptAppend(START, text[..i], text[i..i + n]);
  }
}
