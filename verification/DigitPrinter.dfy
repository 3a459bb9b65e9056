/**
 Printing decimal significands by fixed-point arithmetic: a 64-bit product whose upper half is
 the next two digits and whose lower half, times 100, holds the digits after them.
 */
module DigitPrinter {
  import opened DecimalText
  import opened Powers

  const TWO_TO_32: nat := 0x1_0000_0000
  const TWO_TO_64: nat := 0x1_0000_0000_0000_0000

  /** 100^j, by which j pairs of digits are scaled down. */
  function Scale(j: nat): (d: nat)
    ensures d > 0
  {
    if j == 0 then 1 else 100 * Scale(j - 1)
  }

  lemma {:induction false} ScaleIs(j: nat)
    ensures Scale(j) == Pow(10, 2 * j)
  {
    if j > 0 {
      ScaleIs(j - 1);
      PowAdd(10, 2, 2 * (j - 1));
      assert Pow(10, 2) == 100;
    }
  }

  /** prod is n / d with 32 bits after the point, rounded up by less than 2^32 / d of their units. */
  predicate Holds(prod: nat, n: nat, d: nat) {
    0 <= d * prod - n * TWO_TO_32 < TWO_TO_32
  }

  /** The upper half is the quotient, and the lower half holds the remainder. */
  lemma HighIsQuotient(prod: nat, n: nat, d: nat)
    requires d > 0 && Holds(prod, n, d)
    ensures prod / TWO_TO_32 == n / d
    ensures Holds(prod % TWO_TO_32, n % d, d)
  {
    var q, r, h, f := n / d, n % d, prod / TWO_TO_32, prod % TWO_TO_32;
    assert n == q * d + r && prod == h * TWO_TO_32 + f;
    HalvesAgree(d, q, r, h, f);
  }

  lemma HalvesAgree(d: nat, q: nat, r: nat, h: nat, f: nat)
    requires r < d && f < TWO_TO_32
    requires 0 <= d * (h * TWO_TO_32 + f) - (q * d + r) * TWO_TO_32 < TWO_TO_32
    ensures h == q && 0 <= d * f - r * TWO_TO_32 < TWO_TO_32
  {
    Expand(d, h, f);
    Gap(d, h, q);
    MulLessEq(d, f, TWO_TO_32 - 1);
    NoDifference(d, h - q, d * (h - q), d * f, r);
  }

  lemma Expand(d: int, h: int, f: int)
    ensures d * (h * TWO_TO_32 + f) == d * h * TWO_TO_32 + d * f
  {}

  lemma Gap(d: int, h: int, q: int)
    ensures d * (h - q) == d * h - q * d
  {}

  lemma NoDifference(d: nat, k: int, dk: int, x: nat, r: nat)
    requires r < d && dk == d * k && x <= d * (TWO_TO_32 - 1)
    requires 0 <= dk * TWO_TO_32 + x - r * TWO_TO_32 < TWO_TO_32
    ensures k == 0
  {
    if k >= 1 {
      MulLessEq(d, 1, k);
    } else if k <= -1 {
      MulLessEq(d, k, -1);
    }
  }

  lemma TimesHundred(f: nat, n: nat, d: nat)
    requires Holds(f, n, 100 * d)
    ensures Holds(100 * f, n, d)
  {
    assert (100 * d) * f == d * (100 * f);
  }

  /** The lower half is within the threshold exactly when the remaining digits are zero. */
  lemma ThresholdMeansZero(f: nat, n: nat, j: nat)
    requires 1 <= j <= 3 && Holds(f, n, Scale(j))
    ensures f <= TWO_TO_32 / Scale(j) <==> n == 0
  {
    assert Scale(1) == 100 && Scale(2) == 10000 && Scale(3) == 1000000;
  }

  // The magic multipliers.

  lemma NineDigits(s: nat)
    requires 100000000 <= s < 1000000000
    ensures s * 1441151882 < TWO_TO_64 && Holds(s * 1441151882 / 0x200_0000, s, Scale(4))
  {
    assert Scale(4) == 100000000;
  }

  lemma EightDigits(s: nat)
    requires 1000000 <= s < 100000000
    ensures s * 281474978 < TWO_TO_64 && Holds(s * 281474978 / 0x1_0000, s, Scale(3))
  {
    assert Scale(3) == 1000000;
  }

  /** With leading zeros the product is one more. */
  lemma EightDigitsBelow(s: nat)
    requires s < 100000000
    ensures s * 281474978 < TWO_TO_64 && Holds(s * 281474978 / 0x1_0000 + 1, s, Scale(3))
  {
    assert Scale(3) == 1000000;
  }

  lemma SixDigits(s: nat)
    requires s < 1000000
    ensures s * 429497 < TWO_TO_64 && Holds(s * 429497, s, Scale(2))
  {
    assert Scale(2) == 10000;
  }

  lemma FourDigits(s: nat)
    requires s < 10000
    ensures s * 42949673 < TWO_TO_64 && Holds(s * 42949673, s, Scale(1))
  {
    assert Scale(1) == 100;
  }

  // Printing.

  /** The first two of 2j digits, and the rest. */
  lemma PairAndRest(n: nat, j: nat, d: nat) returns (q: nat, r: nat)
    requires j >= 1 && d == Scale(j - 1)
    ensures q == n / d && r == n % d && r < d && (n > 0 && r == 0 ==> q > 0)
    ensures Fixed(n, 2 * j) == Fixed(q, 2) + Fixed(r, 2 * (j - 1))
    ensures n < Scale(j) ==> q < 100
  {
    q, r := QuotRem(n, d);
    ScaleIs(j - 1);
    SplitAt(n, 2 * j, 2, d, q, r);
  }

  lemma QuotRem(n: nat, d: nat) returns (q: nat, r: nat)
    requires d > 0
    ensures q == n / d && r == n % d && r < d
    ensures (n < 100 * d ==> q < 100) && (n > 0 && r == 0 ==> q > 0)
  {
    q, r := n / d, n % d;
    PairSmall(n, d);
  }

  lemma SplitAt(n: nat, u: nat, v: nat, d: nat, q: nat, r: nat)
    requires v <= u && d == Pow(10, u - v) > 0 && q == n / d && r == n % d
    ensures Fixed(n, u) == Fixed(q, v) + Fixed(r, u - v)
  {
    FixedSplit(n, v, u - v);
  }

  lemma PairSmall(n: nat, d: nat)
    requires d > 0
    ensures n < 100 * d ==> n / d < 100
    ensures n > 0 && n % d == 0 ==> n / d > 0
  {
    var q := n / d;
    assert n == q * d + n % d;
    if q >= 100 { MulLessEq(d, 100, q); }
  }

  lemma TrimmedPair(q: nat, w: nat)
    requires 0 < q < 100
    ensures Trimmed(Fixed(q, 2) + Fixed(0, w)) == if q % 10 == 0 then Fixed(q, 2)[..1] else Fixed(q, 2)
  {
    PowPositive(10, w);
    TrimmedFixed(0, w);
    TrimmedSplit(Fixed(q, 2), Fixed(0, w));
    TrimmedTwo(q);
  }

  lemma TrimmedTwo(q: nat)
    requires 0 < q < 100
    ensures Trimmed(Fixed(q, 2)) == if q % 10 == 0 then Fixed(q, 2)[..1] else Fixed(q, 2)
  {
    TwoChars(q);
    var s := Fixed(q, 2);
    if q % 10 == 0 { assert s[..1] == [DigitChar(q / 10)]; }
  }

  lemma OneChar(q: nat)
    requires q < 10
    ensures Fixed(q, 1) == [DigitChar(q)]
  {
    assert Fixed(q, 1) == Fixed(0, 0) + [DigitChar(q)];
  }

  lemma TwoChars(q: nat)
    requires q < 100
    ensures Fixed(q, 2) == [DigitChar(q / 10), DigitChar(q % 10)]
  {
    OneChar(q / 10);
    assert Fixed(q, 2) == Fixed(q / 10, 1) + [DigitChar(q % 10)];
  }

  lemma TrimmedRest(q: nat, r: nat, w: nat)
    requires 0 < r < Pow(10, w)
    ensures Trimmed(Fixed(q, 2) + Fixed(r, w)) == Fixed(q, 2) + Trimmed(Fixed(r, w))
  {
    TrimmedFixed(r, w);
    TrimmedSplit(Fixed(q, 2), Fixed(r, w));
  }

  /** `print_2_digits` */
  method PrintTwo(buf: array<char>, p: nat, n: nat)
    requires n < 100 && p + 2 <= buf.Length
    modifies buf
    ensures buf[p..p + 2] == Fixed(n, 2) && forall k | 0 <= k < p :: buf[k] == old(buf[k])
  {
    TwoChars(n);
    buf[p] := DigitChar(n / 10);
    buf[p + 1] := DigitChar(n % 10);
  }

  /** Where a pair ends: after its second digit unless that is zero. */
  method EndOfPair(buf: array<char>, p: nat, ghost q: nat, ghost w: nat, ghost text: string) returns (end: nat)
    requires 0 < q < 100 && p + 2 <= buf.Length && buf[p..p + 2] == Fixed(q, 2) && text == Fixed(q, 2) + Fixed(0, w)
    ensures p < end <= p + 2 && buf[p..end] == Trimmed(text)
  {
    TwoChars(q);
    TrimmedPair(q, w);
    assert buf[p + 1] == buf[p..p + 2][1];
    end := p + 1 + (if buf[p + 1] > '0' then 1 else 0);
    assert buf[p..end] == buf[p..p + 2][..end - p];
  }

  /** The next two digits, the lower half f, and the product for the digits after them, r. */
  method PairStep(prod: nat, ghost n: nat, j: nat) returns (pair: nat, f: nat, next: nat, ghost r: nat)
    requires 1 <= j && n < Scale(j) && Holds(prod, n, Scale(j - 1))
    ensures pair < 100 && Fixed(n, 2 * j) == Fixed(pair, 2) + Fixed(r, 2 * (j - 1))
    ensures n > 0 && r == 0 ==> pair > 0
    ensures Holds(f, r, Scale(j - 1)) && r < Scale(j - 1) == Pow(10, 2 * (j - 1))
    ensures j > 1 ==> Holds(next, r, Scale(j - 2))
  {
    ghost var d := Scale(j - 1);
    ghost var q;
    q, r := PairAndRest(n, j, d);
    HighIsQuotient(prod, n, d);
    ScaleIs(j - 1);
    f := prod % TWO_TO_32;
    pair, next := prod / TWO_TO_32, 100 * f;
    if j > 1 { TimesHundred(f, r, Scale(j - 2)); }
  }

  /** As PairStep, and whether the digits after the pair are all zero. */
  method NextPair(prod: nat, ghost n: nat, j: nat) returns (pair: nat, next: nat, done: bool, ghost r: nat)
    requires 1 <= j <= 4 && 0 < n < Scale(j) && Holds(prod, n, Scale(j - 1))
    ensures pair < 100 && Fixed(n, 2 * j) == Fixed(pair, 2) + Fixed(r, 2 * (j - 1))
    ensures done <==> r == 0
    ensures done ==> pair > 0
    ensures !done ==> j > 1 && Holds(next, r, Scale(j - 2)) && r < Scale(j - 1) == Pow(10, 2 * (j - 1))
  {
    var f;
    pair, f, next, r := PairStep(prod, n, j);
    done := true;
    if j > 1 {
      ThresholdMeansZero(f, r, j - 1);
      done := f <= TWO_TO_32 / Scale(j - 1);
    }
  }

  /** All the digits of n, 2j of them. */
  method PrintAll(buf: array<char>, p: nat, prod: nat, ghost n: nat, j: nat)
    requires 1 <= j && n < Scale(j) && Holds(prod, n, Scale(j - 1)) && p + 2 * j <= buf.Length
    modifies buf
    ensures buf[p..p + 2 * j] == Fixed(n, 2 * j) && forall k | 0 <= k < p :: buf[k] == old(buf[k])
    decreases j
  {
    var pair, f, next;
    ghost var r;
    pair, f, next, r := PairStep(prod, n, j);
    PrintTwo(buf, p, pair);
    if j > 1 {
      ghost var first := buf[p..p + 2];
      PrintAll(buf, p + 2, next, r, j - 1);
      assert buf[p..p + 2] == first;
      Joined(buf, p, p + 2, p + 2 * j, Fixed(pair, 2), Fixed(r, 2 * (j - 1)));
    } else {
      assert Fixed(r, 0) == [];
    }
  }

  /** The digits of n, 2j of them, without trailing zeros; prod holds n scaled down to the first pair. */
  method PrintTail(buf: array<char>, p: nat, prod: nat, ghost n: nat, j: nat) returns (end: nat)
    requires 1 <= j <= 4 && 0 < n < Scale(j) && Holds(prod, n, Scale(j - 1)) && p + 2 * j <= buf.Length
    modifies buf
    ensures p < end <= p + 2 * j && forall k | 0 <= k < p :: buf[k] == old(buf[k])
    ensures buf[p..end] == Trimmed(Fixed(n, 2 * j))
    decreases j
  {
    hide Fixed;
    var pair, next, done;
    ghost var r;
    pair, next, done, r := NextPair(prod, n, j);
    PrintTwo(buf, p, pair);
    if done {
      end := EndOfPair(buf, p, pair, 2 * (j - 1), Fixed(n, 2 * j));
    } else {
      end := PrintTail(buf, p + 2, next, r, j - 1);
      JoinedTail(buf, p, end, n, j, pair, r);
    }
  }

  lemma JoinedTail(buf: array<char>, p: nat, end: nat, n: nat, j: nat, pair: nat, r: nat)
    requires j > 1 && p + 2 <= end <= buf.Length && 0 < r < Pow(10, 2 * (j - 1))
    requires buf[p..p + 2] == Fixed(pair, 2) && buf[p + 2..end] == Trimmed(Fixed(r, 2 * (j - 1)))
    requires Fixed(n, 2 * j) == Fixed(pair, 2) + Fixed(r, 2 * (j - 1))
    ensures buf[p..end] == Trimmed(Fixed(n, 2 * j))
  {
    TrimmedRest(pair, r, 2 * (j - 1));
    Joined(buf, p, p + 2, end, Fixed(pair, 2), Trimmed(Fixed(r, 2 * (j - 1))));
  }

  lemma Joined(buf: array<char>, p: nat, q: nat, end: nat, first: string, rest: string)
    requires p <= q <= end <= buf.Length && buf[p..q] == first && buf[q..end] == rest
    ensures buf[p..end] == first + rest
  {}

  // The head: one digit or two, and the decimal point.

  /** The first digit, the point, and the other digits. */
  function Dotted(ds: string): string
    requires ds != []
  {
    [ds[0], '.'] + ds[1..]
  }

  lemma DottedMore(a: string, t: string)
    requires a != [] && t != []
    ensures Scientific(a + t) == Dotted(a) + t
    ensures Dotted(a + t) == Dotted(a) + t
  {
    assert (a + t)[1..] == a[1..] + t;
  }

  lemma HeadDigits(h: nat)
    requires 0 < h < 100
    ensures DigitsOf(h) == if h < 10 then [DigitChar(h)] else [DigitChar(h / 10), DigitChar(h % 10)]
    ensures Dotted(DigitsOf(h)) ==
      if h < 10 then [DigitChar(h), '.'] else [DigitChar(h / 10), '.', DigitChar(h % 10)]
  {
    if h < 10 {
      OneChar(h);
      assert DigitsOf(h) == [DigitChar(h)];
    } else {
      TwoChars(h);
      assert Width(h / 10) == 1;
      assert DigitsOf(h) == [DigitChar(h / 10), DigitChar(h % 10)];
    }
  }

  /** Head digits alone, without a zero that is second. */
  lemma HeadAlone(h: nat)
    requires 0 < h < 100
    ensures Scientific(Trimmed(DigitsOf(h))) ==
      if h < 10 then [DigitChar(h)]
      else if h % 10 == 0 then [DigitChar(h / 10)]
      else [DigitChar(h / 10), '.', DigitChar(h % 10)]
  {
    HeadDigits(h);
    if h >= 10 {
      TwoTrimmed(DigitChar(h / 10), DigitChar(h % 10));
    }
  }

  lemma TwoTrimmed(c: char, d: char)
    requires c != '0'
    ensures Trimmed([c, d]) == if d == '0' then [c] else [c, d]
    ensures Scientific([c, d]) == [c, '.', d]
  {
    assert [c, d][..1] == [c];
    assert [c, d][1..] == [d];
  }

  /** The digits of a number are those of its head h and w more. */
  lemma HeadAndRest(s: nat, h: nat, r: nat, w: nat)
    requires Pow(10, w) > 0 && h > 0 && h == s / Pow(10, w) && r == s % Pow(10, w)
    ensures Width(s) == Width(h) + w && DigitsOf(s) == DigitsOf(h) + Fixed(r, w)
  {
    var v := Width(h);
    WidthBounds(h);
    PowAdd(10, v, w);
    PowAdd(10, v - 1, w);
    QuotBetween(s, h, Pow(10, w), Pow(10, v - 1), Pow(10, v));
    WidthIs(s, v + w);
    FixedSplit(s, v, w);
  }

  lemma QuotBetween(s: nat, h: nat, d: nat, a: nat, b: nat)
    requires d > 0 && h == s / d && a <= h < b
    ensures a * d <= s < b * d
  {
    assert s == h * d + s % d;
    Between(s, h, s % d, d, a, b);
  }

  lemma Between(s: nat, h: nat, r: nat, d: nat, a: nat, b: nat)
    requires s == h * d + r && r < d && a <= h < b
    ensures a * d <= s < b * d
  {
    MulLessEq(d, a, h);
    MulLessEq(d, h + 1, b);
  }

  /** Writes the head from the tables; the third character may be overwritten later. */
  method PrintHead(buf: array<char>, p: nat, h: nat) returns (q: nat)
    requires 0 < h < 100 && p + 3 <= buf.Length
    modifies buf
    ensures q == p + 2 + (if h >= 10 then 1 else 0) && buf[p..q] == Dotted(DigitsOf(h))
    ensures buf[p + 2] == DigitChar(h % 10)
    ensures forall k | 0 <= k < p :: buf[k] == old(buf[k])
  {
    HeadDigits(h);
    buf[p] := DigitChar(if h < 10 then h else h / 10);
    buf[p + 1] := '.';
    buf[p + 2] := DigitChar(h % 10);
    q := p + 2 + (if h >= 10 then 1 else 0);
  }

  /** `buffer += 1 + (head_digits >= 10 & buffer[2] > '0') * 2` */
  method EndOfHead(buf: array<char>, p: nat, h: nat, ghost q: nat) returns (end: nat)
    requires 0 < h < 100 && p + 3 <= buf.Length && buf[p + 2] == DigitChar(h % 10)
    requires q == p + 2 + (if h >= 10 then 1 else 0) && buf[p..q] == Dotted(DigitsOf(h))
    ensures p < end <= p + 3 && buf[p..end] == Scientific(Trimmed(DigitsOf(h)))
  {
    HeadAlone(h);
    HeadDigits(h);
    end := p + 1 + (if h >= 10 && buf[p + 2] > '0' then 2 else 0);
    assert buf[p..end] == buf[p..q][..end - p];
  }

  /** Head digits and the point, then all the other digits. */
  method PrintPointed(buf: array<char>, p: nat, prod: nat, ghost s: nat, j: nat) returns (end: nat, two: bool)
    requires 1 <= j && Scale(j) <= s < Scale(j + 1) && Holds(prod, s, Scale(j)) && p + Width(s) + 1 <= buf.Length
    modifies buf
    ensures end == p + 1 + Width(s) && Width(s) == 2 * j + (if two then 2 else 1)
    ensures buf[p..end] == Dotted(DigitsOf(s))
    ensures forall k | 0 <= k < p :: buf[k] == old(buf[k])
  {
    var h, f, next;
    ghost var r;
    h, f, next, r := HeadStep(prod, s, j);
    two := h >= 10;
    var q := PrintHead(buf, p, h);
    ghost var head := buf[p..q];
    PrintAll(buf, q, next, r, j);
    end := q + 2 * j;
    assert buf[p..q] == head;
    Joined(buf, p, q, end, head, Fixed(r, 2 * j));
    DottedMore(DigitsOf(h), Fixed(r, 2 * j));
  }

  /** The head digits, the lower half f, and the product for the digits after them, r. */
  method HeadStep(prod: nat, ghost s: nat, j: nat) returns (h: nat, f: nat, next: nat, ghost r: nat)
    requires 1 <= j && Scale(j) <= s < Scale(j + 1) && Holds(prod, s, Scale(j))
    ensures 0 < h < 100 && r < Scale(j) == Pow(10, 2 * j)
    ensures DigitsOf(s) == DigitsOf(h) + Fixed(r, 2 * j) && Width(s) == Width(h) + 2 * j
    ensures Width(h) == if h >= 10 then 2 else 1
    ensures Holds(f, r, Scale(j)) && Holds(next, r, Scale(j - 1))
  {
    ghost var d := Scale(j);
    ScaleIs(j);
    HighIsQuotient(prod, s, d);
    h, f := prod / TWO_TO_32, prod % TWO_TO_32;
    next := 100 * f;
    r := s % d;
    HeadRange(s, d);
    HeadAndRest(s, h, r, 2 * j);
    TimesHundred(f, r, Scale(j - 1));
  }

  lemma HeadRange(s: nat, d: nat)
    requires 0 < d <= s < 100 * d
    ensures 0 < s / d < 100
  {
    PairSmall(s, d);
    assert s == s / d * d + s % d;
  }

  /** Head digits and the point, then the other digits without trailing zeros. */
  method PrintTrimmed(buf: array<char>, p: nat, prod: nat, ghost s: nat, j: nat) returns (end: nat, two: bool)
    requires 1 <= j <= 3 && Scale(j) <= s < Scale(j + 1) && Holds(prod, s, Scale(j)) && p + 2 * j + 3 <= buf.Length
    modifies buf
    ensures p < end <= p + 2 * j + 3 && Width(s) == 2 * j + (if two then 2 else 1)
    ensures buf[p..end] == Scientific(Trimmed(DigitsOf(s)))
    ensures forall k | 0 <= k < p :: buf[k] == old(buf[k])
  {
    var h, f, next;
    ghost var r;
    h, f, next, r := HeadStep(prod, s, j);
    two := h >= 10;
    var q := PrintHead(buf, p, h);
    ThresholdMeansZero(f, r, j);
    if f <= TWO_TO_32 / Scale(j) {
      HeadAndZeros(s, h, 2 * j);
      end := EndOfHead(buf, p, h, q);
    } else {
      ghost var head := buf[p..q];
      end := PrintTail(buf, q, next, r, j);
      assert buf[p..q] == head;
      JoinedHead(buf, p, q, end, s, h, r, 2 * j);
    }
  }

  lemma HeadAndZeros(s: nat, h: nat, w: nat)
    requires DigitsOf(s) == DigitsOf(h) + Fixed(0, w)
    ensures Trimmed(DigitsOf(s)) == Trimmed(DigitsOf(h))
  {
    PowPositive(10, w);
    TrimmedFixed(0, w);
    TrimmedSplit(DigitsOf(h), Fixed(0, w));
  }

  lemma JoinedHead(buf: array<char>, p: nat, q: nat, end: nat, s: nat, h: nat, r: nat, w: nat)
    requires p <= q <= end <= buf.Length && 0 < r < Pow(10, w) && DigitsOf(s) == DigitsOf(h) + Fixed(r, w)
    requires buf[p..q] == Dotted(DigitsOf(h)) && buf[q..end] == Trimmed(Fixed(r, w))
    ensures buf[p..end] == Scientific(Trimmed(DigitsOf(s)))
  {
    TrimmedFixed(r, w);
    TrimmedSplit(DigitsOf(h), Fixed(r, w));
    Joined(buf, p, q, end, Dotted(DigitsOf(h)), Trimmed(Fixed(r, w)));
    DottedMore(DigitsOf(h), Trimmed(Fixed(r, w)));
  }

  /** One digit or two, without a zero that is second. */
  method PrintSmall(buf: array<char>, p: nat, s: nat) returns (end: nat)
    requires 0 < s < 100 && p + 3 <= buf.Length
    modifies buf
    ensures p < end <= p + 3 && buf[p..end] == Scientific(Trimmed(DigitsOf(s)))
    ensures Width(s) == if s >= 10 then 2 else 1
    ensures forall k | 0 <= k < p :: buf[k] == old(buf[k])
  {
    var q := PrintHead(buf, p, s);
    end := EndOfHead(buf, p, s, q);
  }

  lemma Scales()
    ensures Scale(1) == 100 && Scale(2) == 10000 && Scale(3) == 1000000
    ensures Scale(4) == 100000000 && Scale(5) == 10000000000
  {}

  /** What is shown of a number of nine digits at most: eight or fewer without trailing zeros, nine as they are. */
  function ShownNine(s: nat): string {
    if s < 100000000 then Trimmed(DigitsOf(s)) else DigitsOf(s)
  }

  /** `print_9_digits` */
  method PrintNine(buf: array<char>, p: nat, s: nat, exponent0: int) returns (exponent: int, end: nat)
    requires 0 < s < 1000000000 && p + 10 <= buf.Length
    modifies buf
    ensures p < end <= p + 10 && exponent == exponent0 + Width(s) - 1
    ensures buf[p..end] == Scientific(ShownNine(s))
    ensures forall k | 0 <= k < p :: buf[k] == old(buf[k])
  {
    Scales();
    var two;
    if s >= 100000000 {
      NineDigits(s);
      NineWide(s);
      end, two := PrintPointed(buf, p, s * 1441151882 / 0x200_0000, s, 4);
      exponent := exponent0 + 8;
    } else if s >= 1000000 {
      EightDigits(s);
      end, two := PrintTrimmed(buf, p, s * 281474978 / 0x1_0000, s, 3);
      exponent := exponent0 + 6 + (if two then 1 else 0);
    } else if s >= 10000 {
      SixDigits(s);
      end, two := PrintTrimmed(buf, p, s * 429497, s, 2);
      exponent := exponent0 + 4 + (if two then 1 else 0);
    } else if s >= 100 {
      FourDigits(s);
      end, two := PrintTrimmed(buf, p, s * 42949673, s, 1);
      exponent := exponent0 + 2 + (if two then 1 else 0);
    } else {
      end := PrintSmall(buf, p, s);
      exponent := exponent0 + (if s >= 10 then 1 else 0);
    }
  }

  lemma NineWide(s: nat)
    requires 100000000 <= s < 1000000000
    ensures Width(s) == 9 && Scientific(DigitsOf(s)) == Dotted(DigitsOf(s))
  {
    assert Pow(10, 8) == 100000000 && Pow(10, 9) == 1000000000;
    WidthIs(s, 9);
  }
}
