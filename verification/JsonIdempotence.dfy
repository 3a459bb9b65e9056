/** When minified text is read as the original was, and so is left alone by a second pass. */
module JsonIdempotence {
  import opened JsonBytes
  import opened JsonAutomaton

  /** How a byte is read: escaped or not, in a string or not. */
  datatype Reading = Reading(escaped: bool, inString: bool)

  function Now(s: Scan): Reading {
    Reading(s.escaped, s.inString)
  }

  /** How each byte of p is read. */
  function Readings(s: Scan, p: seq<Byte>): seq<Reading>
    decreases |p|
  {
    if p == [] then [] else [Now(s)] + Readings(Step(s, p[0]), p[1..])
  }

  /** How each byte of p that minifying keeps is read. */
  function KeptReadings(s: Scan, p: seq<Byte>): seq<Reading>
    decreases |p|
  {
    if p == [] then []
    else
      var rest := KeptReadings(Step(s, p[0]), p[1..]);
      if IsBlank(s, p[0]) then rest else [Now(s)] + rest
  }

  /** No dropped byte is escaped by a backslash, unless nothing is kept after it. */
  predicate Clean(s: Scan, p: seq<Byte>)
    decreases |p|
  {
    p == [] ||
    ((IsBlank(s, p[0]) && s.escaped ==> Kept(Step(s, p[0]), p[1..]) == []) &&
     Clean(Step(s, p[0]), p[1..]))
  }

  lemma {:induction false} NothingKeptIsClean(s: Scan, p: seq<Byte>)
    requires Kept(s, p) == []
    ensures Clean(s, p) && KeptReadings(s, p) == []
    decreases |p|
  {
    if p != [] { NothingKeptIsClean(Step(s, p[0]), p[1..]); }
  }

  lemma {:induction false} FirstKeptReading(s: Scan, p: seq<Byte>)
    requires !s.escaped && Kept(s, p) != []
    ensures KeptReadings(s, p) != [] && !KeptReadings(s, p)[0].escaped
    decreases |p|
  {
    if IsBlank(s, p[0]) { FirstKeptReading(Step(s, p[0]), p[1..]); }
  }

  lemma {:induction false} ReadAlike(s: Scan, u: Scan, p: seq<Byte>)
    requires Now(s) == Now(u)
    ensures KeptReadings(s, p) == Readings(u, Kept(s, p)) <==> Clean(s, p)
    decreases |p|
  {
    if p != [] {
      var t := Step(s, p[0]);
      if !IsBlank(s, p[0]) {
        ReadAlike(t, Step(u, p[0]), p[1..]);
        assert Kept(s, p)[1..] == Kept(t, p[1..]);
        assert KeptReadings(s, p)[1..] == KeptReadings(t, p[1..]);
        assert Readings(u, Kept(s, p))[1..] == Readings(Step(u, p[0]), Kept(t, p[1..]));
      } else if !s.escaped {
        ReadAlike(t, u, p[1..]);
      } else if Kept(t, p[1..]) == [] {
        NothingKeptIsClean(t, p[1..]);
      } else {
        FirstKeptReading(t, p[1..]);
        assert Readings(u, Kept(t, p[1..]))[0] == Now(u);
      }
    }
  }

  /** Every kept byte is read in the output as it was in the input exactly when the input is clean. */
  lemma MinifiedReadsAlike(p: seq<Byte>)
    ensures KeptReadings(START, p) == Readings(START, Kept(START, p)) <==> Clean(START, p)
  {
    ReadAlike(START, START, p);
  }

  lemma {:induction false} KeptAgain(s: Scan, u: Scan, p: seq<Byte>)
    requires Now(s) == Now(u) && Clean(s, p)
    ensures Kept(u, Kept(s, p)) == Kept(s, p)
    decreases |p|
  {
    if p != [] {
      var t := Step(s, p[0]);
      if !IsBlank(s, p[0]) {
        KeptAgain(t, Step(u, p[0]), p[1..]);
        assert Kept(s, p)[1..] == Kept(t, p[1..]);
      } else if !s.escaped {
        KeptAgain(t, u, p[1..]);
      }
    }
  }

  /** Minifying clean text a second time changes nothing. */
  lemma MinifyIdempotent(p: seq<Byte>)
    requires Clean(START, p)
    ensures Kept(START, Kept(START, p)) == Kept(START, p)
  {
    KeptAgain(START, START, p);
  }

  // What the second pass reads, told from the input alone.

  /** Whether byte b, coming after p, is dropped: whitespace after an even number of unescaped quotes. */
  predicate Drops(p: seq<Byte>, b: Byte) {
    IsWhitespace(b) && Quotes(p) % 2 == 0
  }

  /** The length of the run of backslashes that ends p when dropped whitespace is read over. */
  function KeptRun(p: seq<Byte>): nat {
    if p == [] then 0
    else
      var r, b := p[..|p| - 1], p[|p| - 1];
      if Drops(r, b) then KeptRun(r) else if b == BACKSLASH then 1 + KeptRun(r) else 0
  }

  /** The number of quotes in p that no odd run of this kind precedes. */
  function KeptQuotes(p: seq<Byte>): nat {
    if p == [] then 0
    else
      var r, b := p[..|p| - 1], p[|p| - 1];
      KeptQuotes(r) + (if b == QUOTE && KeptRun(r) % 2 == 0 then 1 else 0)
  }

  /** Whitespace in a string comes after an odd number of such quotes too. */
  predicate StringsStay(p: seq<Byte>) {
    forall k | 0 <= k < |p| && IsWhitespace(p[k]) && Quotes(p[..k]) % 2 == 1 :: KeptQuotes(p[..k]) % 2 == 1
  }

  lemma StringsStaySnoc(p: seq<Byte>, b: Byte)
    ensures StringsStay(p + [b]) <==>
      (StringsStay(p) && (IsWhitespace(b) && Quotes(p) % 2 == 1 ==> KeptQuotes(p) % 2 == 1))
  {
    var q := p + [b];
    assert q[|p|] == b && q[..|p|] == p;
    assert forall k | 0 <= k < |p| :: q[k] == p[k] && q[..k] == p[..k];
  }

  lemma KeptOneMore(p: seq<Byte>, b: Byte)
    ensures Kept(START, p + [b]) == if Drops(p, b) then Kept(START, p) else Kept(START, p) + [b]
  {
    KeptIff(p, b);
    assert Kept(START, p) + [] == Kept(START, p);
  }

  lemma RunSnoc(q: seq<Byte>, b: Byte)
    ensures BackslashRun(q + [b]) == if b == BACKSLASH then 1 + BackslashRun(q) else 0
    ensures Quotes(q + [b]) == Quotes(q) + (if b == QUOTE && BackslashRun(q) % 2 == 0 then 1 else 0)
  {
    assert (q + [b])[..|q|] == q;
  }

  lemma KeptRunSnoc(p: seq<Byte>, b: Byte)
    ensures KeptRun(p + [b]) == if Drops(p, b) then KeptRun(p) else if b == BACKSLASH then 1 + KeptRun(p) else 0
    ensures KeptQuotes(p + [b]) == KeptQuotes(p) + (if b == QUOTE && KeptRun(p) % 2 == 0 then 1 else 0)
  {
    assert (p + [b])[..|p|] == p;
  }

  /** What is kept ends in as many backslashes as the run read over dropped whitespace has. */
  lemma {:induction false} KeptRunIs(p: seq<Byte>)
    ensures BackslashRun(Kept(START, p)) == KeptRun(p)
  {
    if p != [] {
      var r, b := p[..|p| - 1], p[|p| - 1];
      KeptRunIs(r);
      KeptRunNext(r, b);
      assert p == r + [b];
    }
  }

  lemma KeptRunNext(r: seq<Byte>, b: Byte)
    requires BackslashRun(Kept(START, r)) == KeptRun(r)
    ensures BackslashRun(Kept(START, r + [b])) == KeptRun(r + [b])
  {
    hide *;
    KeptOneMore(r, b);
    RunSnoc(Kept(START, r), b);
    KeptRunSnoc(r, b);
  }

  /** The unescaped quotes of what is kept are those counted. */
  lemma {:induction false} KeptQuotesIs(p: seq<Byte>)
    ensures Quotes(Kept(START, p)) == KeptQuotes(p)
  {
    if p != [] {
      var r, b := p[..|p| - 1], p[|p| - 1];
      KeptQuotesIs(r);
      KeptRunIs(r);
      KeptQuotesNext(r, b);
      assert p == r + [b];
    }
  }

  lemma KeptQuotesNext(r: seq<Byte>, b: Byte)
    requires BackslashRun(Kept(START, r)) == KeptRun(r) && Quotes(Kept(START, r)) == KeptQuotes(r)
    ensures Quotes(Kept(START, r + [b])) == KeptQuotes(r + [b])
  {
    assert Drops(r, b) ==> b != QUOTE;
    hide *;
    KeptOneMore(r, b);
    RunSnoc(Kept(START, r), b);
    KeptRunSnoc(r, b);
  }

  /** Text is left alone with one more byte if it is without, and the byte is not dropped. */
  lemma KeptAllSnoc(q: seq<Byte>, b: Byte)
    ensures Kept(START, q + [b]) == q + [b] <==> (Kept(START, q) == q && !Drops(q, b))
  {
    KeptOneMore(q, b);
    var r := Kept(START, q);
    if !Drops(q, b) && r + [b] == q + [b] {
      assert r == (r + [b])[..|r|] == (q + [b])[..|q|] == q;
    }
  }

  /** A second pass changes nothing exactly when all whitespace in strings stays in strings. */
  lemma {:induction false} MinifyIdempotentIff(p: seq<Byte>)
    ensures Kept(START, Kept(START, p)) == Kept(START, p) <==> StringsStay(p)
  {
    if p != [] {
      var r, b := p[..|p| - 1], p[|p| - 1];
      assert p == r + [b];
      MinifyIdempotentIff(r);
      StringsStaySnoc(r, b);
      KeptOneMore(r, b);
      KeptAllSnoc(Kept(START, r), b);
      KeptQuotesIs(r);
    }
  }

  /** Every backslash lies in a string, as in any JSON text. */
  predicate BackslashesInStrings(s: Scan, p: seq<Byte>)
    decreases |p|
  {
    p == [] || ((p[0] == BACKSLASH ==> s.inString) && BackslashesInStrings(Step(s, p[0]), p[1..]))
  }

  lemma {:induction false} StringBackslashesClean(s: Scan, p: seq<Byte>)
    requires s.escaped ==> s.inString
    requires BackslashesInStrings(s, p)
    ensures Clean(s, p)
    decreases |p|
  {
    if p != [] { StringBackslashesClean(Step(s, p[0]), p[1..]); }
  }

  /** In particular minifying is idempotent on every text whose backslashes all lie in strings. */
  lemma MinifyIdempotentOnJson(p: seq<Byte>)
    requires BackslashesInStrings(START, p)
    ensures Kept(START, Kept(START, p)) == Kept(START, p)
  {
    StringBackslashesClean(START, p);
    MinifyIdempotent(p);
  }

  /** Without the condition it is not: backslash, space, quote, space, quote. */
  lemma MinifyNotIdempotent()
    ensures var p := [92, 32, 34, 32, 34];
      Kept(START, p) == [92, 34, 32, 34] && Kept(START, Kept(START, p)) == [92, 34, 34]
  {
    var s1 := Step(START, 92);
    var s2 := Step(s1, 32);
    var s3 := Step(s2, 34);
    var s4 := Step(s3, 32);
    assert Kept(s4, [34]) == [34];
    assert Kept(s3, [32, 34]) == [32] + Kept(s4, [32, 34][1..]);
    assert Kept(s2, [34, 32, 34]) == [34] + Kept(s3, [34, 32, 34][1..]);
    assert Kept(s1, [32, 34, 32, 34]) == Kept(s2, [32, 34, 32, 34][1..]);
    assert Kept(START, [92, 32, 34, 32, 34]) == [92] + Kept(s1, [92, 32, 34, 32, 34][1..]);
    var t2 := Step(s1, 34);
    var t3 := Step(t2, 32);
    assert Kept(t3, [34]) == [34];
    assert Kept(t2, [32, 34]) == Kept(t3, [32, 34][1..]);
    assert Kept(s1, [34, 32, 34]) == [34] + Kept(t2, [34, 32, 34][1..]);
    assert Kept(START, [92, 34, 32, 34]) == [92] + Kept(s1, [92, 34, 32, 34][1..]);
  }
}
