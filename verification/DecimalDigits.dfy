/** Strings of decimal digits and the numbers they write. */
module DecimalDigits {
  import opened Powers

  type Digit = d: int | 0 <= d < 10

  function Number(ds: seq<Digit>): nat {
    if ds == [] then 0 else 10 * Number(ds[..|ds| - 1]) + ds[|ds| - 1]
  }

  lemma NumberSnoc(ds: seq<Digit>, d: Digit)
    ensures Number(ds + [d]) == 10 * Number(ds) + d
  {
    assert (ds + [d])[..|ds|] == ds;
  }

  lemma {:induction false} NumberAppend(a: seq<Digit>, b: seq<Digit>)
    ensures Number(a + b) == Number(a) * Pow(10, |b|) + Number(b)
  {
    if b == [] {
      assert a + b == a;
    } else {
      var n := |b| - 1;
      assert (a + b)[..|a| + n] == a + b[..n];
      NumberAppend(a, b[..n]);
      TenTimes(Number(a), Pow(10, n), Number(b[..n]));
    }
  }

  lemma TenTimes(x: nat, p: nat, y: nat)
    ensures 10 * (x * p + y) == x * (10 * p) + 10 * y
  {}

  lemma {:induction false} NumberBound(ds: seq<Digit>)
    ensures Number(ds) < Pow(10, |ds|)
  {
    if ds != [] { NumberBound(ds[..|ds| - 1]); }
  }

  predicate AllZero(ds: seq<Digit>) {
    forall i | 0 <= i < |ds| :: ds[i] == 0
  }

  lemma {:induction false} NumberZero(ds: seq<Digit>)
    ensures Number(ds) == 0 <==> AllZero(ds)
  {
    if ds != [] {
      NumberZero(ds[..|ds| - 1]);
      assert AllZero(ds) ==> AllZero(ds[..|ds| - 1]);
    }
  }

  /** The significant digits: what is left without leading zeros. */
  function Significant(ds: seq<Digit>): (r: seq<Digit>)
    ensures r != [] ==> r[0] != 0
    ensures |r| <= |ds|
  {
    if ds != [] && ds[0] == 0 then Significant(ds[1..]) else ds
  }

  lemma {:induction false} SignificantNumber(ds: seq<Digit>)
    ensures Number(Significant(ds)) == Number(ds)
    decreases |ds|
  {
    if ds != [] && ds[0] == 0 {
      SignificantNumber(ds[1..]);
      assert ds == [ds[0]] + ds[1..];
      NumberAppend([ds[0]], ds[1..]);
      NumberZero([ds[0]]);
    }
  }

  /** Skipping the leading zeros of the first part, and of the second if the first has no other digit. */
  lemma {:induction false} SignificantSplit(a: seq<Digit>, b: seq<Digit>)
    ensures Significant(a + b) ==
      if Significant(a) == [] then Significant(b) else Significant(a) + b
    decreases |a|
  {
    if a == [] {
      assert a + b == b;
    } else if a[0] == 0 {
      assert (a + b)[1..] == a[1..] + b;
      SignificantSplit(a[1..], b);
    }
  }

  lemma {:induction false} SignificantDrop(ds: seq<Digit>, i: nat)
    requires i <= |ds| && AllZero(ds[..i]) && (i < |ds| ==> ds[i] != 0)
    ensures Significant(ds) == ds[i..]
    decreases i
  {
    if i > 0 {
      assert ds[..i][0] == 0;
      assert ds[1..][..i - 1] == ds[..i][1..];
      SignificantDrop(ds[1..], i - 1);
    } else {
      assert ds[0..] == ds;
    }
  }

  lemma LeadingDigit(ds: seq<Digit>)
    requires ds != [] && ds[0] != 0
    ensures Number(ds) >= Pow(10, |ds| - 1)
  {
    assert ds == [ds[0]] + ds[1..];
    NumberAppend([ds[0]], ds[1..]);
    NumberSnoc([], ds[0]);
    assert [] + [ds[0]] == [ds[0]];
    MulLessEq(Pow(10, |ds| - 1), 1, ds[0]);
  }
}
