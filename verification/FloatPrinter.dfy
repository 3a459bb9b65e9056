/** Printing a decimal significand and exponent in scientific notation, for binary32 and binary64. */
module FloatPrinter {
  import opened DecimalText
  import opened DigitPrinter
  import opened Options
  import opened Powers

  lemma SmallExponent(e: nat)
    requires e < 1000
    ensures DigitsOf(e) == if e < 10 then [DigitChar(e)] else if e < 100 then [DigitChar(e / 10), DigitChar(e % 10)]
                           else Fixed(e / 10, 2) + [DigitChar(e % 10)]
  {
    if e < 10 {
      OneChar(e);
    } else if e < 100 {
      TwoChars(e);
      assert Width(e / 10) == 1;
    } else {
      assert Width(e / 10) == 2 && Width(e / 10 / 10) == 1;
    }
  }

  /** The letter, and the sign if there is one. */
  method PrintE(buf: array<char>, p: nat, e: int) returns (q: nat, n: nat)
    requires p + 2 <= buf.Length
    modifies buf
    ensures p < q <= p + 2 && n == (if e < 0 then -e else e)
    ensures buf[p..q] == if e < 0 then ['E', '-'] else ['E']
    ensures forall k | 0 <= k < p :: buf[k] == old(buf[k])
  {
    buf[p] := 'E';
    if e < 0 {
      buf[p + 1] := '-';
      return p + 2, -e;
    }
    return p + 1, e;
  }

  /** One digit or two. */
  method PrintShort(buf: array<char>, p: nat, n: nat) returns (end: nat)
    requires n < 100 && p + 2 <= buf.Length
    modifies buf
    ensures p < end <= p + 2 && buf[p..end] == DigitsOf(n)
    ensures forall k | 0 <= k < p :: buf[k] == old(buf[k])
  {
    SmallExponent(n);
    if n >= 10 {
      PrintTwo(buf, p, n);
      TwoChars(n);
      end := p + 2;
    } else {
      buf[p] := DigitChar(n);
      end := p + 1;
    }
  }

  /** Three digits, by the fixed-point tenth 6554 / 2^16. */
  method PrintThree(buf: array<char>, p: nat, n: nat) returns (end: nat)
    requires 100 <= n < 1000 && p + 3 <= buf.Length
    modifies buf
    ensures end == p + 3 && buf[p..end] == DigitsOf(n)
    ensures forall k | 0 <= k < p :: buf[k] == old(buf[k])
  {
    var prod := n * 6554;
    var d1, d2 := prod / 0x1_0000, prod % 0x1_0000 * 5 / 0x8000;
    TenthIs(n);
    PrintTwo(buf, p, d1);
    buf[p + 2] := DigitChar(d2);
    SmallExponent(n);
    end := p + 3;
    assert buf[p..end] == buf[p..p + 2] + [buf[p + 2]];
  }

  lemma TenthIs(n: nat)
    requires n < 1000
    ensures n * 6554 / 0x1_0000 == n / 10 && n * 6554 % 0x1_0000 * 5 / 0x8000 == n % 10
  {}

  /** The exponent part, of two digits or, for binary64, three at most. */
  method PrintExponent(buf: array<char>, p: nat, e: int, most: nat) returns (end: nat)
    requires most in {2, 3} && p + 2 + most <= buf.Length
    requires (if e < 0 then -e else e) < if most == 2 then 100 else 1000
    modifies buf
    ensures p < end <= p + 2 + most && buf[p..end] == ExponentText(e)
    ensures forall k | 0 <= k < p :: buf[k] == old(buf[k])
  {
    var q, n := PrintE(buf, p, e);
    ghost var head := buf[p..q];
    if n >= 100 {
      end := PrintThree(buf, q, n);
    } else {
      end := PrintShort(buf, q, n);
    }
    assert buf[p..q] == head;
    Joined(buf, p, q, end, head, DigitsOf(n));
  }

  /** `to_chars<ieee754_binary32>` */
  method ToChars32(buf: array<char>, p: nat, s: nat, exponent: int) returns (end: nat)
    requires 0 < s < 1000000000 && -100 < exponent + Width(s) - 1 < 100 && p + 14 <= buf.Length
    modifies buf
    ensures p < end <= p + 14
    ensures buf[p..end] == Scientific(ShownNine(s)) + ExponentText(exponent + Width(s) - 1)
    ensures forall k | 0 <= k < p :: buf[k] == old(buf[k])
  {
    var e, q := PrintNine(buf, p, s, exponent);
    end := Finish(buf, p, q, e, 2, Scientific(ShownNine(s)));
  }

  /** The exponent part after the significand's text. */
  method Finish(buf: array<char>, p: nat, q: nat, e: int, most: nat, ghost text: string) returns (end: nat)
    requires most in {2, 3} && p <= q && q + 2 + most <= buf.Length && buf[p..q] == text
    requires (if e < 0 then -e else e) < if most == 2 then 100 else 1000
    modifies buf
    ensures q < end <= q + 2 + most && buf[p..end] == text + ExponentText(e)
    ensures forall k | 0 <= k < p :: buf[k] == old(buf[k])
  {
    end := PrintExponent(buf, q, e, most);
    assert buf[p..q] == text;
    Joined(buf, p, q, end, text, ExponentText(e));
  }

  // binary64: two blocks.

  const BLOCK: nat := 100000000

  /**
   What is shown of a number of 17 digits at most: without trailing zeros below 10^16; with 17
   digits, all of them, or the first nine if the others are zero.
   */
  function Shown(s: nat): string {
    if s < 10000000000000000 then Trimmed(DigitsOf(s))
    else if s % BLOCK == 0 then DigitsOf(s / BLOCK)
    else DigitsOf(s)
  }

  lemma Blocks(s: nat, first: nat, second: nat)
    requires BLOCK <= s && first == s / BLOCK && second == s % BLOCK
    ensures first > 0 && Width(s) == Width(first) + 8 && DigitsOf(s) == DigitsOf(first) + Fixed(second, 8)
    ensures s < 10000000000000000 <==> first < BLOCK
  {
    assert Pow(10, 8) == BLOCK;
    HeadAndRest(s, first, second, 8);
  }

  lemma ShownOneBlock(s: nat)
    requires 0 < s < 100000000000000000 && (s < BLOCK || s % BLOCK == 0)
    ensures Shown(s) == ShownNine(if s < BLOCK then s else s / BLOCK)
  {
    if s >= BLOCK {
      Blocks(s, s / BLOCK, 0);
      HeadAndZeros(s, s / BLOCK, 8);
    }
  }

  /** The first block of eight digits at most, with the point and all digits; exponent counts them. */
  method PrintFirst(buf: array<char>, p: nat, s: nat, exponent0: int) returns (exponent: int, q: nat)
    requires 0 < s < BLOCK && p + 10 <= buf.Length
    modifies buf
    ensures Width(s) <= 8 && q == p + 1 + Width(s) && exponent == exponent0 + Width(s) - 1
    ensures buf[p..q] == Dotted(DigitsOf(s))
    ensures forall k | 0 <= k < p :: buf[k] == old(buf[k])
  {
    Scales();
    WidthAtMost(s, 8);
    var two;
    if s >= 1000000 {
      EightDigits(s);
      q, two := PrintPointed(buf, p, s * 281474978 / 0x1_0000, s, 3);
      exponent := exponent0 + 6 + (if two then 1 else 0);
    } else if s >= 10000 {
      SixDigits(s);
      q, two := PrintPointed(buf, p, s * 429497, s, 2);
      exponent := exponent0 + 4 + (if two then 1 else 0);
    } else if s >= 100 {
      FourDigits(s);
      q, two := PrintPointed(buf, p, s * 42949673, s, 1);
      exponent := exponent0 + 2 + (if two then 1 else 0);
    } else {
      q := PrintHead(buf, p, s);
      HeadDigits(s);
      exponent := exponent0 + (if s >= 10 then 1 else 0);
    }
  }

  lemma {:induction false} WidthAtMost(s: nat, w: nat)
    requires w >= 1 && s < Pow(10, w)
    ensures Width(s) <= w
    decreases w
  {
    if s >= 10 {
      assert w > 1;
      WidthAtMost(s / 10, w - 1);
    }
  }

  /** The 17 digits of two full blocks. */
  method PrintSeventeen(buf: array<char>, p: nat, first: nat, second: nat, ghost s: nat) returns (q: nat)
    requires BLOCK <= first < 1000000000 && second < BLOCK && p + 18 <= buf.Length
    requires DigitsOf(s) == DigitsOf(first) + Fixed(second, 8)
    modifies buf
    ensures q == p + 18 && Width(first) == 9 && buf[p..q] == Scientific(DigitsOf(s))
    ensures forall k | 0 <= k < p :: buf[k] == old(buf[k])
  {
    Scales();
    NineDigits(first);
    NineWide(first);
    var m, two := PrintPointed(buf, p, first * 1441151882 / 0x200_0000, first, 4);
    ghost var head := buf[p..m];
    EightDigitsBelow(second);
    PrintAll(buf, m, second * 281474978 / 0x1_0000 + 1, second, 4);
    q := p + 18;
    assert buf[p..m] == head;
    Joined(buf, p, m, q, head, Fixed(second, 8));
    DottedMore(DigitsOf(first), Fixed(second, 8));
  }

  /** Two blocks, the first not full, the second without its trailing zeros. */
  method PrintSixteen(buf: array<char>, p: nat, first: nat, second: nat, ghost s: nat, exponent0: int)
      returns (exponent: int, q: nat)
    requires 0 < first < BLOCK && 0 < second < BLOCK && p + 18 <= buf.Length
    requires DigitsOf(s) == DigitsOf(first) + Fixed(second, 8)
    modifies buf
    ensures p < q <= p + 18 && exponent == exponent0 + Width(first) - 1
    ensures buf[p..q] == Scientific(Trimmed(DigitsOf(s)))
    ensures forall k | 0 <= k < p :: buf[k] == old(buf[k])
  {
    Scales();
    var m;
    exponent, m := PrintFirst(buf, p, first, exponent0);
    ghost var head := buf[p..m];
    EightDigitsBelow(second);
    q := PrintTail(buf, m, second * 281474978 / 0x1_0000 + 1, second, 4);
    assert buf[p..m] == head;
    assert Pow(10, 8) == BLOCK;
    JoinedHead(buf, p, m, q, s, first, second, 8);
  }

  function Wrap32(x: int): nat {
    x % TWO_TO_32
  }

  /** `std::uint32_t(significand) - first_block * UINT32_C(100000000)` is the remainder, in 32-bit arithmetic. */
  lemma SecondBlock(s: nat)
    ensures Wrap32(Wrap32(s) - Wrap32(s / BLOCK * BLOCK)) == s % BLOCK
  {
    WrappedDifference(s, s / BLOCK * BLOCK, s % BLOCK);
  }

  lemma WrappedDifference(x: nat, y: nat, r: nat)
    requires x - y == r < TWO_TO_32
    ensures Wrap32(Wrap32(x) - Wrap32(y)) == r
  {
    var k: int := y / TWO_TO_32 - x / TWO_TO_32;
    assert Wrap32(x) - Wrap32(y) == k * TWO_TO_32 + r;
  }

  /** `to_chars<ieee754_binary64>`: prints the significand's digits and the exponent that they then have. */
  method ToChars64(buf: array<char>, p: nat, significand: nat, exponent0: int) returns (end: nat)
    requires 0 < significand < 100000000000000000 && p + 23 <= buf.Length
    requires -1000 < exponent0 + Width(significand) - 1 < 1000
    modifies buf
    ensures p < end <= p + 23
    ensures buf[p..end] == Scientific(Shown(significand)) + ExponentText(exponent0 + Width(significand) - 1)
    ensures forall k | 0 <= k < p :: buf[k] == old(buf[k])
  {
    var first, second, exponent, q := significand, 0, exponent0, p;
    if significand >= BLOCK {
      SecondBlock(significand);
      first := significand / BLOCK;
      second := Wrap32(Wrap32(significand) - Wrap32(first * BLOCK));
      exponent := exponent + 8;
      Blocks(significand, first, second);
    }
    if second == 0 {
      ShownOneBlock(significand);
      exponent, q := PrintNine(buf, p, first, exponent);
    } else if first >= BLOCK {
      q := PrintSeventeen(buf, p, first, second, significand);
      exponent := exponent + 8;
    } else {
      exponent, q := PrintSixteen(buf, p, first, second, significand, exponent);
    }
    end := Finish(buf, p, q, exponent, 3, Scientific(Shown(significand)));
  }

  // What the text denotes.

  lemma ReadsAs(n: nat, ds: string)
    requires ds == DigitsOf(n)
    ensures ds != [] && AllDigits(ds) && NumberOf(ds) == n && |ds| == Width(n)
  {
    FixedIsDigits(n, Width(n));
    DigitsNumber(n);
  }

  /** The digits shown are those of n, where the significand is n * 10^k; n ends in no zero where zeros are cut. */
  lemma ShownIs(s: nat) returns (n: nat, k: nat)
    requires 0 < s
    ensures s == n * Pow(10, k) && Width(s) == Width(n) + k && Shown(s) == DigitsOf(n)
    ensures s < 10000000000000000 || s % 10 != 0 ==> n % 10 != 0
  {
    if s < 10000000000000000 {
      n := Stripped(s);
      k := StrippedIs(s);
    } else if s % BLOCK == 0 {
      n, k := s / BLOCK, 8;
      Blocks(s, n, 0);
      assert Pow(10, 8) == BLOCK;
    } else {
      n, k := s, 0;
      assert Pow(10, 0) == 1;
    }
  }

  /** Reading the text back gives n * 10^(exponent + k), the number that was to be printed. */
  lemma TextDenotes(s: nat, exponent: int) returns (n: nat, k: nat)
    requires 0 < s
    ensures s == n * Pow(10, k) && (s < 10000000000000000 || s % 10 != 0 ==> n % 10 != 0)
    ensures Read(Scientific(Shown(s)) + ExponentText(exponent + Width(s) - 1)) == Some(Decimal(n, exponent + k))
  {
    n, k := ShownIs(s);
    ReadsAs(n, Shown(s));
    ReadScientific(Shown(s), exponent + Width(s) - 1, n, exponent + k);
  }

  lemma {:induction false} FirstDigit(n: nat)
    requires n > 0
    ensures DigitsOf(n)[0] != '0'
  {
    if n >= 10 {
      FirstDigit(n / 10);
      LastDigit(n);
    }
  }

  lemma {:induction false} EachDigit(s: string, i: nat)
    requires AllDigits(s) && i < |s|
    ensures '0' <= s[i] <= '9'
  {
    if i > 0 { EachDigit(s[1..], i - 1); }
  }

  /** What digits in this form are: characters, no zero first, and the number they write. */
  lemma DigitsAre(n: nat)
    ensures var ds := DigitsOf(n);
      && ds != [] && (forall i | 0 <= i < |ds| :: '0' <= ds[i] <= '9') && (|ds| > 1 ==> ds[0] != '0')
      && NumberOf(ds) == n && (n > 0 ==> ds[0] != '0') && (n % 10 != 0 ==> ds[|ds| - 1] != '0')
  {
    ReadsAs(n, DigitsOf(n));
    LastDigit(n);
    if n > 0 { FirstDigit(n); }
    forall i | 0 <= i < |DigitsOf(n)| ensures '0' <= DigitsOf(n)[i] <= '9' { EachDigit(DigitsOf(n), i); }
  }

  /** The text character by character: digits with the point after the first, E, and the exponent. */
  lemma FormIs(n: nat, x: int) returns (ds: string, xs: string)
    requires n > 0
    ensures ds == DigitsOf(n) && xs == DigitsOf(if x < 0 then -x else x)
    ensures Scientific(DigitsOf(n)) + ExponentText(x) ==
      (if |ds| == 1 then ds else ds[..1] + "." + ds[1..]) + (if x < 0 then "E-" else "E") + xs
  {
    hide DigitsOf, Width;
    ds, xs := DigitsOf(n), DigitsOf(if x < 0 then -x else x);
    var head := if |ds| == 1 then ds else ds[..1] + "." + ds[1..];
    assert Scientific(ds) == head;
    assert ExponentText(x) == (if x < 0 then "E-" else "E") + xs;
    assert head + ((if x < 0 then "E-" else "E") + xs) == head + (if x < 0 then "E-" else "E") + xs;
  }

  /** What is printed of s * 10^exponent, told by its characters. */
  lemma TextIs(s: nat, exponent: int) returns (ds: string, k: nat, x: int, xs: string)
    requires 0 < s
    ensures ds != [] && (forall i | 0 <= i < |ds| :: '0' <= ds[i] <= '9') && ds[0] != '0'
    ensures s == NumberOf(ds) * Pow(10, k)
    ensures s < 10000000000000000 || s % 10 != 0 ==> ds[|ds| - 1] != '0'
    ensures xs != [] && (forall i | 0 <= i < |xs| :: '0' <= xs[i] <= '9') && (|xs| > 1 ==> xs[0] != '0')
    ensures x == exponent + k + |ds| - 1 && NumberOf(xs) == (if x < 0 then -x else x)
    ensures Scientific(Shown(s)) + ExponentText(exponent + Width(s) - 1) ==
      (if |ds| == 1 then ds else ds[..1] + "." + ds[1..]) + (if x < 0 then "E-" else "E") + xs
  {
    hide *;
    var n;
    n, k := ShownIs(s);
    x := exponent + Width(s) - 1;
    if n == 0 { assert false; }
    ds, xs := FormIs(n, x);
    DigitsAre(n);
    DigitsAre(if x < 0 then -x else x);
  }

  lemma ShownNineIs(s: nat) returns (n: nat, k: nat)
    requires 0 < s
    ensures s == n * Pow(10, k) && Width(s) == Width(n) + k && ShownNine(s) == DigitsOf(n)
    ensures s < BLOCK || s % 10 != 0 ==> n % 10 != 0
  {
    if s < BLOCK {
      n := Stripped(s);
      k := StrippedIs(s);
    } else {
      n, k := s, 0;
      assert Pow(10, 0) == 1;
    }
  }

  /** The same for binary32, where nine digits are shown as they are. */
  lemma TextDenotes32(s: nat, exponent: int) returns (n: nat, k: nat)
    requires 0 < s
    ensures s == n * Pow(10, k) && (s < BLOCK || s % 10 != 0 ==> n % 10 != 0)
    ensures Read(Scientific(ShownNine(s)) + ExponentText(exponent + Width(s) - 1)) == Some(Decimal(n, exponent + k))
  {
    n, k := ShownNineIs(s);
    ReadsAs(n, ShownNine(s));
    ReadScientific(ShownNine(s), exponent + Width(s) - 1, n, exponent + k);
  }

  lemma TextIs32(s: nat, exponent: int) returns (ds: string, k: nat, x: int, xs: string)
    requires 0 < s
    ensures ds != [] && (forall i | 0 <= i < |ds| :: '0' <= ds[i] <= '9') && ds[0] != '0'
    ensures s == NumberOf(ds) * Pow(10, k)
    ensures s < BLOCK || s % 10 != 0 ==> ds[|ds| - 1] != '0'
    ensures xs != [] && (forall i | 0 <= i < |xs| :: '0' <= xs[i] <= '9') && (|xs| > 1 ==> xs[0] != '0')
    ensures x == exponent + k + |ds| - 1 && NumberOf(xs) == (if x < 0 then -x else x)
    ensures Scientific(ShownNine(s)) + ExponentText(exponent + Width(s) - 1) ==
      (if |ds| == 1 then ds else ds[..1] + "." + ds[1..]) + (if x < 0 then "E-" else "E") + xs
  {
    hide *;
    var n;
    n, k := ShownNineIs(s);
    x := exponent + Width(s) - 1;
    if n == 0 { assert false; }
    ds, xs := FormIs(n, x);
    DigitsAre(n);
    DigitsAre(if x < 0 then -x else x);
  }

  /** Where the significand ends in no zero, all its digits are printed. */
  lemma AllShown(s: nat)
    requires s % 10 != 0
    ensures Shown(s) == DigitsOf(s)
  {
    NotBlocks(s);
    LastDigit(s);
    hide DigitsOf, Width;
  }

  lemma NotBlocks(s: nat)
    requires s % 10 != 0
    ensures s % BLOCK != 0
  {}
}
