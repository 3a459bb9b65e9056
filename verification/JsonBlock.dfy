/** One 64-byte block of the lexer and the minifier: class masks, escapes and strings. */
module JsonBlock {
  import opened Word64
  import opened JsonBytes
  import opened JsonAutomaton

  /** Mask m marks the bytes of p of class c. */
  predicate Marks(m: Word, p: seq<Byte>, c: nat)
    requires |p| == 64
  {
    forall k {:trigger m[k]} | 0 <= k < 64 :: m[k] <==> Class(p[k]) == c
  }

  // Collecting the class masks, four interleaved lanes of 16 bytes.

  /** Mask m marks those of the first n bytes of p in lane r that have class c. */
  predicate Lane(m: Word, p: seq<Byte>, r: nat, c: nat, n: nat)
    requires |p| == 64
  {
    forall k {:trigger m[k]} | 0 <= k < 64 :: m[k] <==> k < n && k % 4 == r && Class(p[k]) == c
  }

  /** One statement of the collecting loop: `MASK[r][code_table[ptr[k]]] |= 1ull << k`. */
  method Collect(mask: array2<Word>, p: seq<Byte>, k: nat, r: nat)
    requires mask.Length0 == 4 && mask.Length1 == 5 && |p| == 64
    requires k < 64 && r == k % 4
    requires forall x, c | 0 <= x < 4 && 0 <= c < 5 :: Lane(mask[x, c], p, x, c, k)
    modifies mask
    ensures forall x, c | 0 <= x < 4 && 0 <= c < 5 :: Lane(mask[x, c], p, x, c, k + 1)
  {
    TableClassifies(p[k]);
    var c := CODE_TABLE[p[k]];
    mask[r, c] := Or(mask[r, c], One(k));
  }

  /** The masks of backslashes, quotes, structural bytes and whitespace of a block. */
  method Classify(p: seq<Byte>) returns (b: Word, q: Word, s: Word, w: Word)
    requires |p| == 64
    ensures Marks(b, p, 0) && Marks(q, p, 1) && Marks(s, p, 2) && Marks(w, p, 3)
  {
    var mask := new Word[4, 5]((r, c) => Fill(false));
    var i := 0;
    while i < 64
      invariant 0 <= i <= 64 && i % 4 == 0
      invariant forall x, c | 0 <= x < 4 && 0 <= c < 5 :: Lane(mask[x, c], p, x, c, i)
    {
      Collect(mask, p, i, 0);
      Collect(mask, p, i + 1, 1);
      Collect(mask, p, i + 2, 2);
      Collect(mask, p, i + 3, 3);
      i := i + 4;
    }
    b := Or(Or(Or(mask[0, 0], mask[1, 0]), mask[2, 0]), mask[3, 0]);
    q := Or(Or(Or(mask[0, 1], mask[1, 1]), mask[2, 1]), mask[3, 1]);
    s := Or(Or(Or(mask[0, 2], mask[1, 2]), mask[2, 2]), mask[3, 2]);
    w := Or(Or(Or(mask[0, 3], mask[1, 3]), mask[2, 3]), mask[3, 3]);
    LanesMark(mask[0, 0], mask[1, 0], mask[2, 0], mask[3, 0], p, 0);
    LanesMark(mask[0, 1], mask[1, 1], mask[2, 1], mask[3, 1], p, 1);
    LanesMark(mask[0, 2], mask[1, 2], mask[2, 2], mask[3, 2], p, 2);
    LanesMark(mask[0, 3], mask[1, 3], mask[2, 3], mask[3, 3], p, 3);
  }

  lemma LanesMark(m0: Word, m1: Word, m2: Word, m3: Word, p: seq<Byte>, c: nat)
    requires |p| == 64
    requires Lane(m0, p, 0, c, 64) && Lane(m1, p, 1, c, 64) && Lane(m2, p, 2, c, 64) && Lane(m3, p, 3, c, 64)
    ensures Marks(Or(Or(Or(m0, m1), m2), m3), p, c)
  {}

  // Masks of what the automaton, started in s, sees at each byte of a block p.

  predicate MarksEscaped(m: Word, s: Scan, p: seq<Byte>)
    requires |p| == 64
  {
    forall k {:trigger m[k]} | 0 <= k < 64 :: m[k] <==> Run(s, p[..k]).escaped
  }

  predicate MarksQuotes(m: Word, s: Scan, p: seq<Byte>)
    requires |p| == 64
  {
    forall k {:trigger m[k]} | 0 <= k < 64 :: m[k] <==> IsQuote(Run(s, p[..k]), p[k])
  }

  /** Opening quotes count as in the string, closing ones do not. */
  predicate MarksInString(m: Word, s: Scan, p: seq<Byte>)
    requires |p| == 64
  {
    forall k {:trigger m[k]} | 0 <= k < 64 :: m[k] <==> Run(s, p[..k + 1]).inString
  }

  predicate MarksBoundary(m: Word, s: Scan, p: seq<Byte>)
    requires |p| == 64
  {
    forall k {:trigger m[k]} | 0 <= k < 64 :: m[k] <==> Run(s, p[..k]).boundary
  }

  predicate MarksStarts(m: Word, s: Scan, p: seq<Byte>)
    requires |p| == 64
  {
    forall k {:trigger m[k]} | 0 <= k < 64 :: m[k] <==> StartsToken(Run(s, p[..k]), p[k])
  }

  predicate MarksBlanks(m: Word, s: Scan, p: seq<Byte>)
    requires |p| == 64
  {
    forall k {:trigger m[k]} | 0 <= k < 64 :: m[k] <==> IsBlank(Run(s, p[..k]), p[k])
  }

  // Escapes and strings.

  /** The word that carries one bit to the next block: 1 or 0. */
  function Carry(b: bool): Word {
    if b then One(0) else Fill(false)
  }

  /** `static_cast<uint64_t>(static_cast<int64_t>(x) >> 63)` */
  function SignFill(x: Word): Word {
    Fill(x[63])
  }

  /** The mask arithmetic for escaped bytes. */
  function EscapedMask(b: Word, prevIsEscape: Word): Word {
    Xor(CalcBackslash(And(b, Not(prevIsEscape))), Or(b, prevIsEscape))
  }

  lemma {:induction false} ActiveIsStep(s: Scan, p: seq<Byte>, b: Word, k: nat)
    requires |p| == 64 && k < 64 && Marks(b, p, 0)
    ensures Active(And(b, Not(Carry(s.escaped))), k) <==> Run(s, p[..k + 1]).escaped
  {
    RunStep(s, p, k);
    if k == 0 {
      assert p[..0] == [];
    } else {
      ActiveIsStep(s, p, b, k - 1);
    }
  }

  lemma EscapedMaskAgrees(s: Scan, p: seq<Byte>, b: Word)
    requires |p| == 64 && Marks(b, p, 0)
    ensures MarksEscaped(EscapedMask(b, Carry(s.escaped)), s, p)
    ensures And(CalcBackslash(And(b, Not(Carry(s.escaped)))), b)[63] == Run(s, p).escaped
  {
    var prev := Carry(s.escaped);
    var active := And(b, Not(prev));
    forall k | 0 <= k < 64
      ensures EscapedMask(b, prev)[k] <==> Run(s, p[..k]).escaped
    {
      if k == 0 { assert p[..0] == []; } else { ActiveIsStep(s, p, b, k - 1); }
      CalcBackslashMarks(active, k);
    }
    ActiveIsStep(s, p, b, 63);
    CalcBackslashMarks(active, 63);
    assert p[..64] == p;
  }

  lemma {:induction false} NoBackslashNoEscape(s: Scan, p: seq<Byte>, b: Word, k: nat)
    requires |p| == 64 && Marks(b, p, 0) && b == Fill(false) && 0 < k <= 64
    ensures !Run(s, p[..k]).escaped
  {
    RunStep(s, p, k - 1);
    assert !b[k - 1];
  }

  /** The escaped bytes of a block, and the carry into the next one. */
  method Escapes(b: Word, prevIsEscape: Word, ghost s: Scan, ghost p: seq<Byte>)
      returns (escaped: Word, next: Word)
    requires |p| == 64 && Marks(b, p, 0) && prevIsEscape == Carry(s.escaped)
    ensures MarksEscaped(escaped, s, p) && next == Carry(Run(s, p).escaped)
  {
    if b == Fill(false) {
      escaped := prevIsEscape;
      next := Fill(false);
      assert p[..64] == p && p[..0] == [];
      forall k | 0 < k <= 64 ensures !Run(s, p[..k]).escaped { NoBackslashNoEscape(s, p, b, k); }
    } else {
      EscapedMaskAgrees(s, p, b);
      var codeB := CalcBackslash(And(b, Not(prevIsEscape)));
      var escape := Carry(And(codeB, b)[63]);
      escaped := Xor(codeB, Or(b, prevIsEscape));
      next := escape;
    }
  }

  /** The mask arithmetic for strings: opening quotes and what follows up to the closing quote. */
  function StringMask(quotes: Word, prevInString: Word): Word {
    Xor(PrefixXor(quotes), prevInString)
  }

  lemma {:induction false} StringMaskAgreesAt(s: Scan, p: seq<Byte>, quotes: Word, k: nat)
    requires |p| == 64 && k < 64 && MarksQuotes(quotes, s, p)
    ensures StringMask(quotes, Fill(s.inString))[k] <==> Run(s, p[..k + 1]).inString
  {
    hide PrefixXor;
    PrefixXorStep(quotes, k);
    RunStep(s, p, k);
    if k == 0 {
      assert p[..0] == [];
    } else {
      StringMaskAgreesAt(s, p, quotes, k - 1);
    }
  }

  lemma StringMaskAgrees(s: Scan, p: seq<Byte>, quotes: Word, r: Word)
    requires |p| == 64 && MarksQuotes(quotes, s, p) && r == StringMask(quotes, Fill(s.inString))
    ensures MarksInString(r, s, p) && r[63] == Run(s, p).inString
  {
    forall k | 0 <= k < 64 ensures r[k] <==> Run(s, p[..k + 1]).inString {
      StringMaskAgreesAt(s, p, quotes, k);
    }
    assert p[..64] == p;
  }

  lemma QuotesAgree(s: Scan, p: seq<Byte>, q: Word, escaped: Word)
    requires |p| == 64 && Marks(q, p, 1) && MarksEscaped(escaped, s, p)
    ensures MarksQuotes(And(q, Not(escaped)), s, p)
  {}

  /** The unescaped quotes of a block, its bytes in strings, and the carry into the next one. */
  method Strings(q: Word, escaped: Word, prevInString: Word, ghost s: Scan, ghost p: seq<Byte>)
      returns (quotes: Word, r: Word, next: Word)
    requires |p| == 64 && Marks(q, p, 1) && MarksEscaped(escaped, s, p) && prevInString == Fill(s.inString)
    ensures MarksQuotes(quotes, s, p) && MarksInString(r, s, p) && next == Fill(Run(s, p).inString)
  {
    quotes := And(q, Not(escaped));
    QuotesAgree(s, p, q, escaped);
    r := StringMask(quotes, prevInString);
    StringMaskAgrees(s, p, quotes, r);
    next := SignFill(r);
  }
}
