/** Numbers in scientific decimal notation, and what such a text denotes. */
module DecimalText {
  import opened Options
  import opened Powers

  predicate IsDigit(c: char) {
    '0' <= c <= '9'
  }

  function DigitChar(d: nat): (c: char)
    requires d < 10
    ensures IsDigit(c) && c as int == '0' as int + d
  {
    ('0' as int + d) as char
  }

  function DigitValue(c: char): (d: nat)
    ensures d < 10 && (IsDigit(c) ==> DigitChar(d) == c)
  {
    if IsDigit(c) then c as int - '0' as int else 0
  }

  predicate AllDigits(s: string) {
    s == [] || (IsDigit(s[0]) && AllDigits(s[1..]))
  }

  /** The number that digits write. */
  function NumberOf(s: string): nat {
    if s == [] then 0 else 10 * NumberOf(s[..|s| - 1]) + DigitValue(s[|s| - 1])
  }

  /** The last w digits of n, with leading zeros. */
  function Fixed(n: nat, w: nat): (s: string)
    ensures |s| == w
  {
    if w == 0 then [] else Fixed(n / 10, w - 1) + [DigitChar(n % 10)]
  }

  /** How many digits n has. */
  function Width(n: nat): (w: nat)
    ensures w >= 1
  {
    if n < 10 then 1 else Width(n / 10) + 1
  }

  /** The digits of n, without leading zeros. */
  function DigitsOf(n: nat): (s: string)
    ensures |s| == Width(n)
  {
    Fixed(n, Width(n))
  }

  lemma {:induction false} FixedIsDigits(n: nat, w: nat)
    ensures AllDigits(Fixed(n, w))
  {
    if w > 0 {
      FixedIsDigits(n / 10, w - 1);
      OneMoreDigit(Fixed(n / 10, w - 1), DigitChar(n % 10));
    }
  }

  lemma {:induction false} OneMoreDigit(s: string, c: char)
    requires AllDigits(s) && IsDigit(c)
    ensures AllDigits(s + [c])
  {
    if s == [] {
      assert [] + [c] == [c] && [c][1..] == [];
    } else {
      OneMoreDigit(s[1..], c);
      assert (s + [c])[1..] == s[1..] + [c];
    }
  }

  lemma {:induction false} WidthBounds(n: nat)
    ensures n < Pow(10, Width(n))
    ensures n > 0 ==> Pow(10, Width(n) - 1) <= n
  {
    if n >= 10 { WidthBounds(n / 10); } else { assert Pow(10, 0) == 1; }
  }

  lemma WidthIs(n: nat, w: nat)
    requires w >= 1 && n < Pow(10, w) && (w > 1 ==> Pow(10, w - 1) <= n)
    ensures Width(n) == w
  {
    WidthBounds(n);
    if Width(n) < w { PowMonotone(10, Width(n), w - 1); }
    if Width(n) > w { PowMonotone(10, w, Width(n) - 1); }
  }

  lemma {:induction false} FixedNumber(n: nat, w: nat)
    requires n < Pow(10, w)
    ensures NumberOf(Fixed(n, w)) == n
  {
    if w > 0 {
      FixedNumber(n / 10, w - 1);
      assert Fixed(n, w)[..w - 1] == Fixed(n / 10, w - 1);
    }
  }

  /** Digits in two parts. */
  lemma {:induction false} FixedSplit(n: nat, v: nat, w: nat)
    requires Pow(10, w) > 0
    ensures Fixed(n, v + w) == Fixed(n / Pow(10, w), v) + Fixed(n % Pow(10, w), w)
    decreases w
  {
    if w == 0 {
      assert Fixed(n, v) + [] == Fixed(n, v);
    } else {
      var p := Pow(10, w - 1);
      PowPositive(10, w - 1);
      TenSplit(n, p);
      FixedSplit(n / 10, v, w - 1);
    }
  }

  lemma TenSplit(n: nat, p: nat)
    requires p > 0
    ensures n / 10 / p == n / (10 * p)
    ensures n % (10 * p) / 10 == n / 10 % p && n % (10 * p) % 10 == n % 10
  {
    var a, d := n / 10, n % 10;
    var q, r := a / p, a % p;
    assert n == 10 * a + d && a == q * p + r;
    assert n == q * (10 * p) + (10 * r + d);
    DivModIs(n, 10 * p, q, 10 * r + d);
  }

  /** Without trailing zeros. */
  function Trimmed(s: string): string {
    if s != [] && s[|s| - 1] == '0' then Trimmed(s[..|s| - 1]) else s
  }

  lemma {:induction false} TrimmedSplit(a: string, b: string)
    ensures Trimmed(a + b) == if Trimmed(b) == [] then Trimmed(a) else a + Trimmed(b)
    decreases |b|
  {
    if b == [] {
      assert a + b == a;
    } else {
      var n := |b| - 1;
      assert (a + b)[..|a| + n] == a + b[..n];
      if b[n] == '0' { TrimmedSplit(a, b[..n]); }
    }
  }

  lemma {:induction false} TrimmedFixed(n: nat, w: nat)
    requires n < Pow(10, w)
    ensures Trimmed(Fixed(n, w)) == [] <==> n == 0
    decreases w
  {
    if w > 0 {
      assert Fixed(n, w)[..w - 1] == Fixed(n / 10, w - 1);
      TrimmedFixed(n / 10, w - 1);
    }
  }

  /** Scientific notation of a digit string: a point after the first digit if there are more. */
  function Scientific(ds: string): string {
    if |ds| <= 1 then ds else [ds[0], '.'] + ds[1..]
  }

  function ExponentText(e: int): string {
    if e < 0 then ['E', '-'] + DigitsOf(-e) else ['E'] + DigitsOf(e)
  }

  // Reading a text back.

  /** The number digits * 10^exponent. */
  datatype Decimal = Decimal(digits: nat, exponent: int)

  /** The place of the first E from i on, or the length. */
  function FindE(t: string, i: nat): (k: nat)
    requires i <= |t|
    ensures i <= k <= |t|
    decreases |t| - i
  {
    if i == |t| || t[i] == 'E' then i else FindE(t, i + 1)
  }

  function WithoutPoint(m: string): string {
    if m == [] then [] else (if m[0] == '.' then [] else [m[0]]) + WithoutPoint(m[1..])
  }

  /** How many characters follow the point. */
  function Places(m: string): nat {
    if m == [] then 0 else if m[0] == '.' then |m| - 1 else Places(m[1..])
  }

  function Negated(n: int): int {
    -n
  }

  function ReadInteger(t: string): Option<int> {
    if t == [] then None
    else if t[0] == '-' then
      if |t| > 1 && AllDigits(t[1..]) then Some(Negated(NumberOf(t[1..]))) else None
    else if AllDigits(t) then Some(NumberOf(t)) else None
  }

  function ReadDecimal(ds: string, places: nat, e: Option<int>): Option<Decimal> {
    if ds == [] || !AllDigits(ds) || e.None? then None else Some(Decimal(NumberOf(ds), e.value - places))
  }

  /** Digits with or without a point, E, and an exponent with or without a sign. */
  function Read(t: string): Option<Decimal> {
    var k := FindE(t, 0);
    if k == |t| then None else ReadDecimal(WithoutPoint(t[..k]), Places(t[..k]), ReadInteger(t[k + 1..]))
  }

  lemma {:induction false} FindsE(t: string, i: nat, k: nat)
    requires i <= k < |t| && t[k] == 'E' && forall j | i <= j < k :: t[j] != 'E'
    ensures FindE(t, i) == k
    decreases k - i
  {
    if i < k { FindsE(t, i + 1, k); }
  }

  lemma {:induction false} DigitsHaveNoPoint(ds: string)
    requires AllDigits(ds)
    ensures WithoutPoint(ds) == ds && Places(ds) == 0
  {
    if ds != [] { DigitsHaveNoPoint(ds[1..]); }
  }

  lemma {:induction false} DigitsHaveNoE(ds: string)
    requires AllDigits(ds)
    ensures 'E' !in ds
  {
    if ds != [] { DigitsHaveNoE(ds[1..]); }
  }

  lemma ScientificDigits(ds: string)
    requires ds != [] && AllDigits(ds)
    ensures var m := Scientific(ds);
      'E' !in m && WithoutPoint(m) == ds && Places(m) == |ds| - 1
  {
    DigitsHaveNoE(ds);
    DigitsHaveNoPoint(ds);
    if |ds| > 1 { PointedDigits(ds[0], ds[1..]); }
  }

  lemma PointedDigits(d: char, rest: string)
    requires IsDigit(d) && AllDigits(rest)
    ensures var m := [d, '.'] + rest;
      WithoutPoint(m) == [d] + rest && Places(m) == |rest|
  {
    DigitsHaveNoPoint(rest);
    Pointed(d, rest);
  }

  lemma FirstChar(c: char, s: string)
    ensures WithoutPoint([c] + s) == if c == '.' then WithoutPoint(s) else [c] + WithoutPoint(s)
    ensures Places([c] + s) == if c == '.' then |s| else Places(s)
  {
    assert ([c] + s)[1..] == s;
    assert [] + WithoutPoint(s) == WithoutPoint(s);
  }

  lemma Pointed(d: char, rest: string)
    requires d != '.'
    ensures var m := [d, '.'] + rest;
      WithoutPoint(m) == [d] + WithoutPoint(rest) && Places(m) == |rest|
  {
    assert [d, '.'] + rest == [d] + (['.'] + rest);
    FirstChar(d, ['.'] + rest);
    FirstChar('.', rest);
  }

  lemma DigitsNumber(n: nat)
    ensures NumberOf(DigitsOf(n)) == n
  {
    WidthBounds(n);
    FixedNumber(n, Width(n));
  }

  lemma ReadDigits(ds: string)
    requires ds != [] && AllDigits(ds)
    ensures ReadInteger(ds) == Some(NumberOf(ds))
    ensures ReadInteger(['-'] + ds) == Some(Negated(NumberOf(ds)))
  {
    assert (['-'] + ds)[1..] == ds;
  }

  lemma ReadExponent(e: int)
    ensures ExponentText(e)[0] == 'E' && ReadInteger(ExponentText(e)[1..]) == Some(e)
  {
    var n := if e < 0 then -e else e;
    DigitsNumber(n);
    FixedIsDigits(n, Width(n));
    ReadDigits(DigitsOf(n));
    DropE(DigitsOf(n));
  }

  lemma DropE(ds: string)
    ensures (['E'] + ds)[1..] == ds && (['E', '-'] + ds)[1..] == ['-'] + ds
  {}

  /** Scientific notation reads back as the digits and the exponent it was made of. */
  lemma ReadScientific(ds: string, e: int, n: nat, g: int)
    requires ds != [] && AllDigits(ds) && n == NumberOf(ds) && g == e - (|ds| - 1)
    ensures Read(Scientific(ds) + ExponentText(e)) == Some(Decimal(n, g))
  {
    ScientificDigits(ds);
    ReadExponent(e);
    ReadParts(Scientific(ds), ExponentText(e), ds, e, n, g);
  }

  lemma ReadParts(m: string, x: string, ds: string, e: int, n: nat, g: int)
    requires 'E' !in m && x != [] && x[0] == 'E' && ReadInteger(x[1..]) == Some(e)
    requires WithoutPoint(m) == ds != [] && AllDigits(ds) && n == NumberOf(ds) && g == e - Places(m)
    ensures Read(m + x) == Some(Decimal(n, g))
  {
    var t := m + x;
    FindsE(t, 0, |m|);
    assert t[..|m|] == m && t[|m| + 1..] == x[1..];
  }

  /** n without its trailing zeros. */
  function Stripped(n: nat): (r: nat)
    requires n > 0
    ensures r > 0 && r % 10 != 0
  {
    if n % 10 == 0 then Stripped(n / 10) else n
  }

  lemma LastDigit(n: nat)
    ensures DigitsOf(n)[Width(n) - 1] == DigitChar(n % 10)
    ensures n >= 10 ==> Width(n) == Width(n / 10) + 1 && DigitsOf(n)[..Width(n) - 1] == DigitsOf(n / 10)
  {}

  lemma TenTimes(a: nat, b: nat, n: nat)
    requires n == a * b
    ensures 10 * n == a * (10 * b)
  {}

  lemma {:induction false} StrippedIs(n: nat) returns (k: nat)
    requires n > 0
    ensures n == Stripped(n) * Pow(10, k) && Width(n) == Width(Stripped(n)) + k
    ensures Trimmed(DigitsOf(n)) == DigitsOf(Stripped(n))
  {
    LastDigit(n);
    if n % 10 == 0 {
      k := StrippedIs(n / 10);
      TenTimes(Stripped(n), Pow(10, k), n / 10);
      k := k + 1;
    } else {
      k := 0;
      assert Pow(10, 0) == 1;
    }
  }
}
