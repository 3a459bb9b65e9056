/** Powers of natural numbers, and the few facts on products that the number modules share. */
module Powers {

  function Pow(b: nat, e: nat): nat {
    if e == 0 then 1 else b * Pow(b, e - 1)
  }

  lemma {:induction false} PowPositive(b: nat, e: nat)
    requires b > 0
    ensures Pow(b, e) > 0
  {
    if e > 0 { PowPositive(b, e - 1); }
  }

  lemma {:induction false} PowAdd(b: nat, d: nat, e: nat)
    ensures Pow(b, d + e) == Pow(b, d) * Pow(b, e)
  {
    if d > 0 {
      PowAdd(b, d - 1, e);
      MulAssoc(b, Pow(b, d - 1), Pow(b, e));
    }
  }

  lemma {:induction false} PowMul(a: nat, b: nat, e: nat)
    ensures Pow(a * b, e) == Pow(a, e) * Pow(b, e)
  {
    if e > 0 {
      PowMul(a, b, e - 1);
      var x, y := Pow(a, e - 1), Pow(b, e - 1);
      assert (a * b) * (x * y) == (a * x) * (b * y) by { MulSwap(a, b, x, y); }
    }
  }

  lemma {:induction false} PowPow(b: nat, d: nat, e: nat)
    ensures Pow(Pow(b, d), e) == Pow(b, d * e)
  {
    if e > 0 {
      PowPow(b, d, e - 1);
      assert d * e == d + d * (e - 1);
      PowAdd(b, d, d * (e - 1));
    }
  }

  lemma PowMonotone(b: nat, d: nat, e: nat)
    requires b > 0 && d <= e
    ensures Pow(b, d) <= Pow(b, e)
  {
    PowAdd(b, d, e - d);
    PowPositive(b, e - d);
    PowPositive(b, d);
    MulGrows(Pow(b, d), Pow(b, e - d));
  }

  lemma PowStrict(b: nat, d: nat, e: nat)
    requires b > 1 && d < e
    ensures Pow(b, d) < Pow(b, e)
  {
    PowMonotone(b, d + 1, e);
    PowPositive(b, d);
    MulLess(Pow(b, d), 1, b);
  }

  lemma MulAssoc(a: int, b: int, c: int)
    ensures a * (b * c) == (a * b) * c
  {}

  lemma MulSwap(a: int, b: int, x: int, y: int)
    ensures (a * b) * (x * y) == (a * x) * (b * y)
  {}

  lemma MulGrows(a: nat, b: nat)
    requires b > 0
    ensures a <= a * b
  {}

  lemma MulLess(a: nat, b: int, c: int)
    requires a > 0 && b < c
    ensures a * b < a * c
  {}

  lemma MulLessEq(a: nat, b: int, c: int)
    requires b <= c
    ensures a * b <= a * c
  {}

  /** Comparing products by a common positive factor compares the other factors. */
  lemma MulCompare(a: nat, b: int, c: int)
    requires a > 0
    ensures a * b < a * c <==> b < c
    ensures a * b == a * c <==> b == c
  {
    if b < c { MulLess(a, b, c); }
    if c < b { MulLess(a, c, b); }
  }

  /** Quotient and remainder are what they claim to be. */
  lemma DivModIs(n: nat, d: nat, q: nat, r: nat)
    requires d > 0 && n == q * d + r && r < d
    ensures n / d == q && n % d == r
  {
    var q', r' := n / d, n % d;
    assert n == q' * d + r' && 0 <= r' < d;
    if q < q' {
      MulLessEq(d, q + 1, q');
    } else if q' < q {
      MulLessEq(d, q' + 1, q);
    }
  }
}
