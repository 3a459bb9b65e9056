/**
 The lexical rules of JSON, one byte at a time: which bytes are escaped, which
 lie in a string, and where tokens start. The block lexer is proved against it.
 */
module JsonAutomaton {
  import opened JsonBytes

  /**
   What the bytes read so far leave behind: whether the next byte is escaped,
   whether it lies in a string, and whether the last byte was whitespace or
   structural (or there was none), so that a scalar may start.
   */
  datatype Scan = Scan(escaped: bool, inString: bool, boundary: bool)

  const START := Scan(false, false, true)

  function Step(s: Scan, b: Byte): Scan {
    Scan(b == BACKSLASH && !s.escaped,
         s.inString != IsQuote(s, b),
         IsWhitespace(b) || IsStructural(b))
  }

  /** A quote that opens or closes a string. */
  predicate IsQuote(s: Scan, b: Byte) {
    b == QUOTE && !s.escaped
  }

  /** A token: an unescaped quote, or outside strings a structural byte or the first of a scalar. */
  predicate StartsToken(s: Scan, b: Byte) {
    IsQuote(s, b) ||
    (!s.inString && (IsStructural(b) || (s.boundary && !IsWhitespace(b))))
  }

  /** Whitespace outside strings. */
  predicate IsBlank(s: Scan, b: Byte) {
    IsWhitespace(b) && !s.inString
  }

  /** The state after the bytes of p, started in s. */
  function Run(s: Scan, p: seq<Byte>): Scan {
    if p == [] then s else Step(Run(s, p[..|p| - 1]), p[|p| - 1])
  }

  lemma {:induction false} RunAppend(s: Scan, p: seq<Byte>, q: seq<Byte>)
    ensures Run(s, p + q) == Run(Run(s, p), q)
  {
    if q == [] {
      assert p + q == p;
    } else {
      assert (p + q)[..|p + q| - 1] == p + q[..|q| - 1];
      RunAppend(s, p, q[..|q| - 1]);
    }
  }

  lemma RunCons(s: Scan, p: seq<Byte>)
    requires p != []
    ensures Run(Step(s, p[0]), p[1..]) == Run(s, p)
  {
    assert [p[0]] + p[1..] == p;
    RunAppend(s, [p[0]], p[1..]);
    assert Run(s, [p[0]]) == Step(Run(s, [p[0]][..0]), p[0]);
  }

  lemma RunStep(s: Scan, p: seq<Byte>, k: nat)
    requires k < |p|
    ensures Run(s, p[..k + 1]) == Step(Run(s, p[..k]), p[k])
  {
    assert p[..k + 1][..k] == p[..k];
  }

  /** The positions in p where tokens start, the first byte of p being at position base. */
  function Tokens(s: Scan, p: seq<Byte>, base: nat): (ts: seq<nat>)
    ensures |ts| <= |p|
    decreases |p|
  {
    if p == [] then [] else
    var rest := Tokens(Step(s, p[0]), p[1..], base + 1);
    if StartsToken(s, p[0]) then [base] + rest else rest
  }

  lemma {:induction false} TokensAppend(s: Scan, p: seq<Byte>, q: seq<Byte>, base: nat)
    ensures Tokens(s, p + q, base) == Tokens(s, p, base) + Tokens(Run(s, p), q, base + |p|)
    decreases |p|
  {
    if p == [] {
      assert p + q == q;
    } else {
      var t := Step(s, p[0]);
      TokensAppend(t, p[1..], q, base + 1);
      RunCons(s, p);
      assert (p + q)[1..] == p[1..] + q;
    }
  }

  /** Strictly increasing positions in lo..hi. */
  predicate Increasing(ts: seq<nat>, lo: nat, hi: nat) {
    (forall j | 0 <= j < |ts| :: lo <= ts[j] < hi) &&
    (forall i, j | 0 <= i < j < |ts| :: ts[i] < ts[j])
  }

  lemma {:induction false} TokensIncrease(s: Scan, p: seq<Byte>, base: nat)
    ensures Increasing(Tokens(s, p, base), base, base + |p|)
    decreases |p|
  {
    if p != [] {
      TokensIncrease(Step(s, p[0]), p[1..], base + 1);
    }
  }

  /** Tokens lists exactly the positions whose byte starts a token in its own state. */
  lemma {:induction false} TokensExact(s: Scan, p: seq<Byte>, base: nat, k: nat)
    requires k < |p|
    ensures base + k in Tokens(s, p, base) <==> StartsToken(Run(s, p[..k]), p[k])
    decreases |p|
  {
    var rest := Tokens(Step(s, p[0]), p[1..], base + 1);
    if k == 0 {
      assert p[..0] == [];
      TokensIncrease(Step(s, p[0]), p[1..], base + 1);
      assert base !in rest;
    } else {
      TokensExact(Step(s, p[0]), p[1..], base + 1, k - 1);
      assert p[..k][1..] == p[1..][..k - 1];
      RunCons(s, p[..k]);
    }
  }

  /** What minifying keeps: every byte that is not whitespace outside strings. */
  function Kept(s: Scan, p: seq<Byte>): (r: seq<Byte>)
    ensures |r| <= |p|
    decreases |p|
  {
    if p == [] then []
    else
      var rest := Kept(Step(s, p[0]), p[1..]);
      if IsBlank(s, p[0]) then rest else [p[0]] + rest
  }

  lemma {:induction false} KeptAppend(s: Scan, p: seq<Byte>, q: seq<Byte>)
    ensures Kept(s, p + q) == Kept(s, p) + Kept(Run(s, p), q)
    decreases |p|
  {
    if p == [] {
      assert p + q == q;
    } else {
      assert (p + q)[1..] == p[1..] + q;
      KeptAppend(Step(s, p[0]), p[1..], q);
      RunCons(s, p);
    }
  }

  // What the states mean.

  /** The length of the run of backslashes that ends p. */
  function BackslashRun(p: seq<Byte>): nat {
    if p == [] || p[|p| - 1] != BACKSLASH then 0 else 1 + BackslashRun(p[..|p| - 1])
  }

  /** It is the longest run of backslashes at the end. */
  lemma {:induction false} BackslashRunIs(p: seq<Byte>)
    ensures var n := BackslashRun(p);
      && n <= |p| && (forall k | |p| - n <= k < |p| :: p[k] == BACKSLASH)
      && (n < |p| ==> p[|p| - 1 - n] != BACKSLASH)
  {
    if p != [] && p[|p| - 1] == BACKSLASH { BackslashRunIs(p[..|p| - 1]); }
  }

  /** A byte is escaped exactly when an odd number of backslashes stand right before it. */
  lemma {:induction false} EscapedIsOddRun(p: seq<Byte>)
    ensures Run(START, p).escaped <==> BackslashRun(p) % 2 == 1
  {
    if p != [] { EscapedIsOddRun(p[..|p| - 1]); }
  }

  /** The number of quotes in p that no odd run of backslashes precedes. */
  function Quotes(p: seq<Byte>): nat {
    if p == [] then 0
    else Quotes(p[..|p| - 1]) +
         (if p[|p| - 1] == QUOTE && BackslashRun(p[..|p| - 1]) % 2 == 0 then 1 else 0)
  }

  /** The number of such quotes grows from 0 by one with each of them. */
  lemma QuotesStep(p: seq<Byte>, b: Byte)
    ensures Quotes([]) == 0
    ensures Quotes(p + [b]) == Quotes(p) + (if b == QUOTE && BackslashRun(p) % 2 == 0 then 1 else 0)
  {
    assert (p + [b])[..|p|] == p;
  }

  /** A byte lies in a string exactly when an odd number of such quotes come before it. */
  lemma {:induction false} InStringIsOddQuotes(p: seq<Byte>)
    ensures Run(START, p).inString <==> Quotes(p) % 2 == 1
  {
    if p != [] {
      InStringIsOddQuotes(p[..|p| - 1]);
      EscapedIsOddRun(p[..|p| - 1]);
    }
  }

  /** A scalar may start after whitespace or a structural byte, and at the start. */
  lemma BoundaryIs(p: seq<Byte>)
    ensures Run(START, p).boundary <==> p == [] || IsWhitespace(p[|p| - 1]) || IsStructural(p[|p| - 1])
  {}

  /**
   What the tokens are, told from the text alone: quotes that are not escaped, and outside strings the
   structural bytes and what is not whitespace where a scalar may start.
   */
  lemma TokenIff(p: seq<Byte>, k: nat)
    requires k < |p|
    ensures k in Tokens(START, p, 0) <==>
      || (p[k] == QUOTE && BackslashRun(p[..k]) % 2 == 0)
      || (Quotes(p[..k]) % 2 == 0 && IsStructural(p[k]))
      || (Quotes(p[..k]) % 2 == 0 && !IsWhitespace(p[k]) &&
          (k == 0 || IsWhitespace(p[k - 1]) || IsStructural(p[k - 1])))
  {
    hide Run, Tokens, Quotes, BackslashRun;
    var before := p[..k];
    TokensExact(START, p, 0, k);
    EscapedIsOddRun(before);
    InStringIsOddQuotes(before);
    BoundaryIs(before);
  }

  /** What minifying keeps, told from the text alone: each byte but whitespace outside strings, in order. */
  lemma KeptIff(p: seq<Byte>, b: Byte)
    ensures Kept(START, []) == []
    ensures Kept(START, p + [b]) ==
      Kept(START, p) + (if IsWhitespace(b) && Quotes(p) % 2 == 0 then [] else [b])
  {
    KeptAppend(START, p, [b]);
    InStringIsOddQuotes(p);
    assert Kept(Step(Run(START, p), b), [b][1..]) == [];
  }

  /** The text [1] has three tokens. */
  lemma TokensOfList()
    ensures Tokens(START, [91, 49, 93], 0) == [0, 1, 2]
  {}
}
