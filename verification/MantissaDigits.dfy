/** Reading the significant digits into a big integer, up to the format's maximum. */
module MantissaDigits {
  import opened Powers
  import opened DecimalDigits
  import opened PackedDigits
  import opened BigInts
  import opened FloatFormat
  import opened DecimalRounding
  import opened SlowPathRoom
  import opened Options

  /** `skip_zeros`: eight digits at a time, then one by one. */
  method SkipZeros(ds: seq<Digit>) returns (i: nat)
    ensures i <= |ds| && ds[i..] == Significant(ds)
  {
    i := 0;
    while |ds| - i >= 8 && Memory(ds[i..i + 8]) == EIGHT_ZEROS
      invariant i <= |ds| && AllZero(ds[..i])
    {
      MemoryOfZeros(ds[i..i + 8]);
      AllZeroAppend(ds[..i], ds[i..i + 8]);
      assert ds[..i + 8] == ds[..i] + ds[i..i + 8];
      i := i + 8;
    }
    while i != |ds| && ds[i] == 0
      invariant i <= |ds| && AllZero(ds[..i])
    {
      i := i + 1;
    }
    SignificantDrop(ds, i);
  }

  lemma PartOfZeros(ds: seq<Digit>, i: nat)
    requires i + 8 <= |ds| && AllZero(ds)
    ensures AllZero(ds[i..i + 8])
  {}

  /** `is_truncated`: whether any digit is not zero. */
  method IsTruncated(ds: seq<Digit>) returns (r: bool)
    ensures r <==> !AllZero(ds)
  {
    var i := 0;
    while |ds| - i >= 8
      invariant i <= |ds| && AllZero(ds[..i])
    {
      MemoryOfZeros(ds[i..i + 8]);
      if Memory(ds[i..i + 8]) != EIGHT_ZEROS {
        if AllZero(ds) { PartOfZeros(ds, i); }
        return true;
      }
      AllZeroAppend(ds[..i], ds[i..i + 8]);
      assert ds[..i + 8] == ds[..i] + ds[i..i + 8];
      i := i + 8;
    }
    while i != |ds|
      invariant i <= |ds| && AllZero(ds[..i])
    {
      if ds[i] != 0 {
        return true;
      }
      i := i + 1;
    }
    return false;
  }

  const STEP: nat := 19

  /** What the big integer, the pending value of counter digits and the digit count say of the digits read. */
  predicate Reads(read: seq<Digit>, big: nat, value: nat, counter: nat, digits: nat) {
    && digits == |read| && counter <= STEP && value < Pow(10, counter)
    && Number(read) == big * Pow(10, counter) + value
  }

  function Appended(value: nat, more: seq<Digit>): nat {
    value * Pow(10, |more|) + Number(more)
  }

  lemma ReadMore(read: seq<Digit>, more: seq<Digit>, big: nat, value: nat, counter: nat, digits: nat)
    requires Reads(read, big, value, counter, digits) && counter + |more| <= STEP
    ensures Reads(read + more, big, Appended(value, more), counter + |more|, digits + |more|)
  {
    hide Pow, Number;
    NumberAppend(read, more);
    NumberBound(more);
    PowAdd(10, counter, |more|);
    ShiftIn(big, Pow(10, counter), value, Pow(10, |more|), Number(more));
  }

  lemma ShiftIn(big: nat, p: nat, value: nat, q: nat, n: nat)
    requires value < p && n < q
    ensures (big * p + value) * q + n == big * (p * q) + (value * q + n)
    ensures value * q + n < p * q
  {
    assert (big * p + value) * q == big * (p * q) + value * q;
    MulLessEq(q, value + 1, p);
    assert (value + 1) * q == value * q + q;
  }

  lemma ReadNothing()
    ensures Reads([], 0, 0, 0, 0)
  {
    assert Pow(10, 0) == 1;
  }

  lemma Flush(read: seq<Digit>, big: nat, value: nat, counter: nat, digits: nat)
    requires Reads(read, big, value, counter, digits)
    ensures Reads(read, big * Pow(10, counter) + value, 0, 0, digits)
  {
    assert Pow(10, 0) == 1;
  }

  /** One round of the digit loop: up to 19 digits gathered in a word. */
  method Gather(ds: seq<Digit>, p0: nat, maxDigits: nat, digits0: nat, ghost read: seq<Digit>, ghost big: nat)
      returns (p: nat, value: nat, counter: nat, digits: nat)
    requires p0 < |ds| && digits0 < maxDigits && Reads(read, big, 0, 0, digits0)
    ensures p0 < p <= |ds| && digits <= maxDigits
    ensures Reads(read + ds[p0..p], big, value, counter, digits)
  {
    hide Pow, Number, Reads;
    p, value, counter, digits := p0, 0, 0, digits0;
    assert read + ds[p0..p0] == read;
    while |ds| - p >= 8 && STEP - counter >= 8 && maxDigits - digits >= 8
      invariant p0 <= p <= |ds| && digits == digits0 + counter <= maxDigits && counter == p - p0
      invariant Reads(read + ds[p0..p], big, value, counter, digits)
    {
      ReadEight(read, ds, p0, p, big, value, counter, digits);
      var eight := ParseEight(ds[p..p + 8]);
      value := value * 100000000 + eight;
      p, counter, digits := p + 8, counter + 8, digits + 8;
    }
    while counter < STEP && p != |ds| && digits < maxDigits
      invariant p0 <= p <= |ds| && digits == digits0 + counter <= maxDigits && counter == p - p0
      invariant Reads(read + ds[p0..p], big, value, counter, digits)
    {
      ReadOne(read, ds, p0, p, big, value, counter, digits);
      value := value * 10 + ds[p];
      p, counter, digits := p + 1, counter + 1, digits + 1;
    }
  }

  lemma ReadEight(read: seq<Digit>, ds: seq<Digit>, p0: nat, p: nat, big: nat, value: nat, counter: nat, digits: nat)
    requires p0 <= p && p + 8 <= |ds| && counter + 8 <= STEP && Reads(read + ds[p0..p], big, value, counter, digits)
    ensures Reads(read + ds[p0..p + 8], big, value * 100000000 + Number(ds[p..p + 8]), counter + 8, digits + 8)
  {
    ReadMore(read + ds[p0..p], ds[p..p + 8], big, value, counter, digits);
    assert read + ds[p0..p] + ds[p..p + 8] == read + ds[p0..p + 8];
    assert Pow(10, 8) == 100000000;
  }

  lemma ReadOne(read: seq<Digit>, ds: seq<Digit>, p0: nat, p: nat, big: nat, value: nat, counter: nat, digits: nat)
    requires p0 <= p < |ds| && counter < STEP && Reads(read + ds[p0..p], big, value, counter, digits)
    ensures Reads(read + ds[p0..p + 1], big, value * 10 + ds[p], counter + 1, digits + 1)
  {
    ReadMore(read + ds[p0..p], [ds[p]], big, value, counter, digits);
    assert read + ds[p0..p] + [ds[p]] == read + ds[p0..p + 1];
    NumberSnoc([], ds[p]);
    assert [] + [ds[p]] == [ds[p]];
    assert Pow(10, 1) == 10;
  }

  /** The digit loop over one span: all of it, or as many digits as fit. */
  method Consume(big: BigInt, ds: seq<Digit>, maxDigits: nat, digits0: nat, ghost read: seq<Digit>)
      returns (p: nat, digits: nat, full: bool)
    requires big.Valid() && digits0 < maxDigits && Reads(read, big.Value(), 0, 0, digits0)
    requires Fits(Pow(10, maxDigits + 1))
    modifies big
    ensures big.Valid() && p <= |ds| && Reads(read + ds[..p], big.Value(), 0, 0, digits)
    ensures if full then digits == maxDigits else digits < maxDigits && p == |ds|
  {
    p, digits := 0, digits0;
    assert read + ds[..0] == read;
    while p != |ds|
      invariant p <= |ds| && digits < maxDigits
      invariant big.Valid() && Reads(read + ds[..p], big.Value(), 0, 0, digits)
      decreases |ds| - p
    {
      var q, value, counter;
      q, value, counter, digits := Gather(ds, p, maxDigits, digits, read + ds[..p], big.Value());
      assert read + ds[..p] + ds[p..q] == read + ds[..q];
      TableOfTens(counter);
      Flush(read + ds[..q], big.Value(), value, counter, digits);
      ReadFits(read + ds[..q], big.Value() * Pow(10, counter) + value, digits, maxDigits);
      big.AddNative(POWERS_OF_TEN[counter], value);
      p := q;
      if digits == maxDigits {
        return p, digits, true;
      }
    }
    full := false;
  }

  /** All the digits read fit the storage. */
  lemma ReadFits(read: seq<Digit>, big: nat, digits: nat, maxDigits: nat)
    requires Reads(read, big, 0, 0, digits) && digits <= maxDigits && Fits(Pow(10, maxDigits + 1))
    ensures Fits(big)
  {
    ReadAll(read, big, digits);
    NumberBound(read);
    PowMonotone(10, digits, maxDigits + 1);
    FitsBelow(big, Pow(10, maxDigits + 1));
  }

  // What parse_mantissa leaves.

  /** `fraction.data() != nullptr` */
  function Digits(integer: seq<Digit>, fraction: Option<seq<Digit>>): seq<Digit> {
    integer + (if fraction.Some? then fraction.value else [])
  }

  /** The number and digit count left of significant digits s when at most max are kept. */
  predicate Kept(s: seq<Digit>, max: nat, number: nat, digits: nat) {
    if |s| <= max then number == Number(s) && digits == |s|
    else if AllZero(s[max..]) then number == Number(s[..max]) && digits == max
    else number == 10 * Number(s[..max]) + 1 && digits == max + 1
  }

  /** How many digits are kept, the marker included. */
  function KeptCount(s: seq<Digit>, max: nat): nat {
    if |s| <= max then |s| else if AllZero(s[max..]) then max else max + 1
  }

  lemma KeptWhole(s: seq<Digit>, max: nat, number: nat)
    requires |s| >= max && number == Number(s[..max]) && AllZero(s[max..])
    ensures Kept(s, max, number, max)
  {
    if |s| == max { assert s[..max] == s; }
  }

  /** `parse_mantissa` */
  method ParseMantissa(f: Format, big: BigInt, integer: seq<Digit>, fraction: Option<seq<Digit>>)
      returns (digits: nat)
    requires f.maxDigits >= 1 && big.Valid() && big.Value() == 0 && Fits(Pow(10, f.maxDigits + 1))
    modifies big
    ensures big.Valid() && Kept(Significant(Digits(integer, fraction)), f.maxDigits, big.Value(), digits)
  {
    ghost var s := Significant(Digits(integer, fraction));
    ghost var tail := if fraction.Some? then fraction.value else [];
    var max := f.maxDigits;
    var p := SkipZeros(integer);
    var ds := integer[p..];
    SignificantSplit(integer, tail);
    ReadNothing();
    var q, full;
    q, digits, full := Consume(big, ds, max, 0, []);
    assert [] + ds[..q] == ds[..q];
    ReadAll(ds[..q], big.Value(), digits);
    if full {
      var truncated := IsTruncated(ds[q..]);
      if fraction.Some? {
        var more := IsTruncated(fraction.value);
        truncated := truncated || more;
      }
      SplitAt(ds, q, tail);
      digits := RoundUp(big, ds + tail, digits, truncated);
      return;
    }
    assert ds[..q] == ds;
    if fraction.Some? {
      digits := ParseFraction(max, big, ds, fraction.value, digits);
    } else {
      assert ds + [] == ds;
    }
  }

  lemma SplitAt(ds: seq<Digit>, q: nat, tail: seq<Digit>)
    requires q <= |ds|
    ensures (ds + tail)[..q] == ds[..q]
    ensures AllZero((ds + tail)[q..]) <==> AllZero(ds[q..]) && AllZero(tail)
  {
    assert (ds + tail)[q..] == ds[q..] + tail;
    AllZeroAppend(ds[q..], tail);
  }

  lemma AllZeroAppend(a: seq<Digit>, b: seq<Digit>)
    ensures AllZero(a + b) <==> AllZero(a) && AllZero(b)
  {
    if AllZero(a + b) {
      forall i | 0 <= i < |a| ensures a[i] == 0 { assert (a + b)[i] == 0; }
      forall i | 0 <= i < |b| ensures b[i] == 0 { assert (a + b)[|a| + i] == 0; }
    }
  }

  lemma ReadAll(read: seq<Digit>, big: nat, digits: nat)
    requires Reads(read, big, 0, 0, digits)
    ensures big == Number(read) && digits == |read|
  {
    assert Pow(10, 0) == 1;
  }

  /** The fraction part of `parse_mantissa`, after integer digits ds that did not fill it. */
  method ParseFraction(max: nat, big: BigInt, ghost ds: seq<Digit>, fraction: seq<Digit>, digits0: nat)
      returns (digits: nat)
    requires big.Valid() && digits0 < max && Reads(ds, big.Value(), 0, 0, digits0) && Fits(Pow(10, max + 1))
    modifies big
    ensures big.Valid()
    ensures Kept(if ds == [] then Significant(fraction) else ds + fraction, max, big.Value(), digits)
  {
    var start := 0;
    if digits0 == 0 { start := SkipZeros(fraction); }
    var fs := fraction[start..];
    var r, full;
    r, digits, full := Consume(big, fs, max, digits0, ds);
    ReadAll(ds + fs[..r], big.Value(), digits);
    if full {
      var truncated := IsTruncated(fs[r..]);
      assert (ds + fs)[..digits] == ds + fs[..r] && (ds + fs)[digits..] == fs[r..];
      digits := RoundUp(big, ds + fs, digits, truncated);
    } else {
      assert fs[..r] == fs;
    }
    assert ds == [] ==> ds + fs == Significant(fraction);
    assert ds != [] ==> fs == fraction;
  }

  /** Marks dropped digits by one more digit, a one, so as not to make a false halfway point. */
  method RoundUp(big: BigInt, ghost s: seq<Digit>, digits0: nat, truncated: bool) returns (digits: nat)
    requires big.Valid() && digits0 <= |s| && big.Value() == Number(s[..digits0])
    requires (truncated <==> !AllZero(s[digits0..])) && Fits(Pow(10, digits0 + 1))
    modifies big
    ensures big.Valid() && Kept(s, digits0, big.Value(), digits)
  {
    digits := digits0;
    if truncated {
      MarkerFits(s[..digits0]);
      big.AddNative(10, 1);
      digits := digits + 1;
    } else {
      KeptWhole(s, digits0, big.Value());
    }
  }

  lemma MarkerFits(s: seq<Digit>)
    requires Fits(Pow(10, |s| + 1))
    ensures Fits(Number(s) * 10 + 1)
  {
    NumberBound(s);
    FitsBelow(Number(s) * 10 + 1, Pow(10, |s| + 1));
  }

  /** What is kept has as many digits as counted, one more than the maximum at most. */
  lemma KeptBound(s: seq<Digit>, max: nat, number: nat, digits: nat)
    requires Kept(s, max, number, digits)
    ensures number < Pow(10, digits) && digits <= max + 1
  {
    NumberBound(if |s| <= max then s else s[..max]);
  }

  // The marker digit is as good as the dropped digits.

  lemma MarkedComparesAlike(f: Format, n: nat, v: nat, c: nat, m: nat, g: int, h: nat)
    requires f.Bias() >= 0 && 0 < v < Pow(10, c) && m == n * Pow(10, c) + v
    requires Compare(f, n, g, h) < 0 ==> Compare(f, n + 1, g, h) <= 0
    ensures Compare(f, m, g - c, h) == Compare(f, 10 * n + 1, g - 1, h)
  {
    hide Number;
    var p := Pow(10, c);
    CompareRescale(f, n, g, h, c);
    CompareRescale(f, n + 1, g, h, c);
    CompareTen(f, n, g, h);
    CompareTen(f, n + 1, g, h);
    assert (n + 1) * p == n * p + p;
    CompareMonotone(f, n * p, m, g - c, h);
    CompareMonotone(f, m, (n + 1) * p, g - c, h);
    CompareMonotone(f, 10 * n, 10 * n + 1, g - 1, h);
    CompareMonotone(f, 10 * n + 1, 10 * (n + 1), g - 1, h);
  }

  /** Keeping maxDigits digits and the marker changes no comparison with a halfway point. */
  lemma KeptComparesAlike(f: Format, s: seq<Digit>, exponent: int, number: nat, digits: nat, k: nat)
    requires Sound(f) && f.Hidden() > 0 && k < f.Infinity()
    requires s != [] && s[0] != 0 && Kept(s, f.maxDigits, number, digits)
    ensures Compare(f, Number(s), exponent - |s|, Half(f, k)) == Compare(f, number, exponent - digits, Half(f, k))
  {
    hide Number;
    if |s| > f.maxDigits {
      var a, b := s[..f.maxDigits], s[f.maxDigits..];
      assert a + b == s && a[0] == s[0];
      SplitComparesAlike(f, a, b, exponent - |a|, k);
    }
  }

  lemma SplitComparesAlike(f: Format, a: seq<Digit>, b: seq<Digit>, g: int, k: nat)
    requires Sound(f) && f.Hidden() > 0 && k < f.Infinity() && |a| == f.maxDigits && a[0] != 0
    ensures Compare(f, Number(a + b), g - |b|, Half(f, k)) ==
      if AllZero(b) then Compare(f, Number(a), g, Half(f, k)) else Compare(f, 10 * Number(a) + 1, g - 1, Half(f, k))
  {
    if AllZero(b) {
      ZerosCompareAlike(f, a, b, g, Half(f, k));
    } else {
      DroppedComparesAlike(f, a, b, g, k);
    }
  }

  lemma ZerosCompareAlike(f: Format, a: seq<Digit>, b: seq<Digit>, g: int, h: nat)
    requires f.Bias() >= 0 && AllZero(b)
    ensures Compare(f, Number(a + b), g - |b|, h) == Compare(f, Number(a), g, h)
  {
    NumberAppend(a, b);
    NumberZero(b);
    CompareRescale(f, Number(a), g, h, |b|);
  }

  lemma DroppedComparesAlike(f: Format, a: seq<Digit>, b: seq<Digit>, g: int, k: nat)
    requires Sound(f) && f.Hidden() > 0 && k < f.Infinity()
    requires |a| == f.maxDigits && a[0] != 0 && !AllZero(b)
    ensures Compare(f, Number(a + b), g - |b|, Half(f, k)) == Compare(f, 10 * Number(a) + 1, g - 1, Half(f, k))
  {
    hide Pow;
    DroppedNumber(a, b);
    MarkedAtMost(f, Number(a), Number(b), |b|, Number(a + b), g, k);
  }

  lemma DroppedNumber(a: seq<Digit>, b: seq<Digit>)
    requires a != [] && a[0] != 0 && !AllZero(b)
    ensures Number(a) >= Pow(10, |a| - 1) && 0 < Number(b) < Pow(10, |b|)
    ensures Number(a + b) == Number(a) * Pow(10, |b|) + Number(b)
  {
    NumberAppend(a, b);
    NumberBound(b);
    NumberZero(b);
    LeadingDigit(a);
  }

  lemma MarkedAtMost(f: Format, n: nat, v: nat, c: nat, m: nat, g: int, k: nat)
    requires Sound(f) && f.Hidden() > 0 && k < f.Infinity()
    requires n >= Pow(10, f.maxDigits - 1) && 0 < v < Pow(10, c) && m == n * Pow(10, c) + v
    ensures Compare(f, m, g - c, Half(f, k)) == Compare(f, 10 * n + 1, g - 1, Half(f, k))
  {
    if Compare(f, n, g, Half(f, k)) < 0 { NoHalfInside(f, n, g, k); }
    MarkedComparesAlike(f, n, v, c, m, g, Half(f, k));
  }

  /** So the digits kept round to the float that all the digits round to. */
  lemma KeptRoundsAlike(f: Format, s: seq<Digit>, exponent: int, number: nat, digits: nat, k: nat)
    requires Sound(f) && f.Hidden() > 0
    requires s != [] && s[0] != 0 && Kept(s, f.maxDigits, number, digits)
    ensures RoundsTo(f, Number(s), exponent - |s|, k) <==> RoundsTo(f, number, exponent - digits, k)
  {
    forall j | 0 <= j < f.Infinity()
      ensures Compare(f, Number(s), exponent - |s|, Half(f, j)) == Compare(f, number, exponent - digits, Half(f, j))
    {
      KeptComparesAlike(f, s, exponent, number, digits, j);
    }
    SameComparisonsRoundAlike(f, Number(s), exponent - |s|, number, exponent - digits, k);
  }
}
