/**
 64-bit words as bit sequences, least significant bit first: the masks of the
 JSON lexer, with the mask helpers it calls. Subtraction is the borrow chain of
 two's complement arithmetic (SubIsModular ties it to the numbers).
 */
module Word64 {

  type Word = w: seq<bool> | |w| == 64 witness seq(64, _ => false)

  function Fill(b: bool): (w: Word)
    ensures forall i | 0 <= i < 64 :: w[i] == b
  {
    seq(64, _ => b)
  }

  /** `1ull << k` */
  function One(k: nat): (w: Word)
    ensures forall i | 0 <= i < 64 :: w[i] <==> i == k
  {
    seq(64, i => i == k)
  }

  /** 0xAAAAAAAAAAAAAAAA */
  function OddBits(): (w: Word)
    ensures forall i | 0 <= i < 64 :: w[i] <==> i % 2 == 1
  {
    seq(64, i => i % 2 == 1)
  }

  function And(x: Word, y: Word): (w: Word)
    ensures forall i | 0 <= i < 64 :: w[i] == (x[i] && y[i])
  {
    seq(64, i requires 0 <= i < 64 => x[i] && y[i])
  }

  function Or(x: Word, y: Word): (w: Word)
    ensures forall i | 0 <= i < 64 :: w[i] == (x[i] || y[i])
  {
    seq(64, i requires 0 <= i < 64 => x[i] || y[i])
  }

  function Xor(x: Word, y: Word): (w: Word)
    ensures forall i | 0 <= i < 64 :: w[i] == (x[i] != y[i])
  {
    seq(64, i requires 0 <= i < 64 => x[i] != y[i])
  }

  function Not(x: Word): (w: Word)
    ensures forall i | 0 <= i < 64 :: w[i] == !x[i]
  {
    seq(64, i requires 0 <= i < 64 => !x[i])
  }

  /** `x << c` */
  function Shl(x: Word, c: nat): (w: Word)
    ensures forall i | 0 <= i < 64 :: w[i] == (i >= c && x[i - c])
  {
    seq(64, i requires 0 <= i < 64 => i >= c && x[i - c])
  }

  /** The borrow into bit i of x - y. */
  predicate Borrow(x: Word, y: Word, i: nat)
    requires i <= 64
  {
    i > 0 &&
    ((!x[i - 1] && y[i - 1]) || (Borrow(x, y, i - 1) && x[i - 1] == y[i - 1]))
  }

  /** `x - y` */
  function Sub(x: Word, y: Word): (w: Word)
    ensures forall i | 0 <= i < 64 :: w[i] == ((x[i] != y[i]) != Borrow(x, y, i))
  {
    seq(64, i requires 0 <= i < 64 => (x[i] != y[i]) != Borrow(x, y, i))
  }

  // What subtraction means on the numbers.

  function Pow2(n: nat): nat {
    if n == 0 then 1 else 2 * Pow2(n - 1)
  }

  /** The number held by the low n bits. */
  function Low(x: Word, n: nat): nat
    requires n <= 64
  {
    if n == 0 then 0 else Low(x, n - 1) + if x[n - 1] then Pow2(n - 1) else 0
  }

  /** The borrow chain computes the difference modulo 2^n, borrowing exactly when it is negative. */
  lemma {:induction false} SubIsModular(x: Word, y: Word, n: nat)
    requires n <= 64
    ensures Low(Sub(x, y), n) == Low(x, n) - Low(y, n) + if Borrow(x, y, n) then Pow2(n) else 0
  {
    if n > 0 { SubIsModular(x, y, n - 1); }
  }

  // calc_backslash: one subtraction finds the active backslashes.

  function CalcBackslash(b: Word): Word {
    var maybeEscaped := Shl(b, 1);
    var maybeEscapedAndOddBits := Or(maybeEscaped, OddBits());
    Xor(Sub(maybeEscapedAndOddBits, b), OddBits())
  }

  /** Bit i is a backslash that no earlier one of its run has consumed. */
  predicate Active(p: Word, i: nat)
    requires i < 64
  {
    p[i] && !(i > 0 && Active(p, i - 1))
  }

  /** The borrow chain of calc_backslash carries the active backslashes from bit to bit. */
  lemma {:induction false} BackslashBorrow(p: Word, i: nat)
    requires i < 64
    ensures var x := Or(Shl(p, 1), OddBits());
      Borrow(x, p, i) == if i % 2 == 1 then Active(p, i - 1) else i > 0 && p[i - 1] && Active(p, i - 2)
  {
    var x := Or(Shl(p, 1), OddBits());
    if i > 0 {
      BackslashBorrow(p, i - 1);
      assert x[i - 1] == ((i > 1 && p[i - 2]) || (i - 1) % 2 == 1);
    }
  }

  /** `calc_backslash` marks each active backslash and each other byte right after one. */
  lemma CalcBackslashMarks(p: Word, i: nat)
    requires i < 64
    ensures CalcBackslash(p)[i] == (Active(p, i) || (!p[i] && i > 0 && Active(p, i - 1)))
  {
    BackslashBorrow(p, i);
    var x := Or(Shl(p, 1), OddBits());
    assert CalcBackslash(p)[i] == (((x[i] != p[i]) != Borrow(x, p, i)) != (i % 2 == 1));
  }

  // prefix_xor: parities by six doublings.

  function PrefixXor(x0: Word): Word {
    var x1 := Xor(x0, Shl(x0, 1));
    var x2 := Xor(x1, Shl(x1, 2));
    var x3 := Xor(x2, Shl(x2, 4));
    var x4 := Xor(x3, Shl(x3, 8));
    var x5 := Xor(x4, Shl(x4, 16));
    Xor(x5, Shl(x5, 32))
  }

  /** Whether an odd number of the w bits ending at bit i are set. */
  predicate Parity(x: Word, i: int, w: nat)
    requires i < 64
  {
    w > 0 && 0 <= i && x[i] != Parity(x, i - 1, w - 1)
  }

  lemma {:induction false} ParitySplit(x: Word, i: int, v: nat, w: nat)
    requires i < 64
    ensures Parity(x, i, v + w) == (Parity(x, i, v) != Parity(x, i - v, w))
    decreases v
  {
    if v > 0 { ParitySplit(x, i - 1, v - 1, w); }
  }

  /** One doubling step widens the parity window of every bit from w to 2w. */
  lemma ParityDouble(x: Word, y: Word, w: nat)
    requires forall i | 0 <= i < 64 :: y[i] == Parity(x, i, w)
    ensures forall i | 0 <= i < 64 :: Xor(y, Shl(y, w))[i] == Parity(x, i, w + w)
  {
    forall i | 0 <= i < 64
      ensures Xor(y, Shl(y, w))[i] == Parity(x, i, w + w)
    {
      ParitySplit(x, i, w, w);
    }
  }

  /** `prefix_xor` gives every bit the parity of the bits up to it. */
  lemma PrefixXorIsParity(x: Word)
    ensures forall i | 0 <= i < 64 :: PrefixXor(x)[i] == Parity(x, i, 64)
  {
    var x1 := Xor(x, Shl(x, 1));
    var x2 := Xor(x1, Shl(x1, 2));
    var x3 := Xor(x2, Shl(x2, 4));
    var x4 := Xor(x3, Shl(x3, 8));
    var x5 := Xor(x4, Shl(x4, 16));
    forall i | 0 <= i < 64 ensures x[i] == Parity(x, i, 1) {
      assert !Parity(x, i - 1, 0);
    }
    ParityDouble(x, x, 1);
    ParityDouble(x, x1, 2);
    ParityDouble(x, x2, 4);
    ParityDouble(x, x3, 8);
    ParityDouble(x, x4, 16);
    ParityDouble(x, x5, 32);
  }

  lemma {:induction false} ParityWide(x: Word, i: int, v: nat, w: nat)
    requires i < v <= w && i < 64
    ensures Parity(x, i, v) == Parity(x, i, w)
    decreases v
  {
    if i >= 0 { ParityWide(x, i - 1, v - 1, w - 1); }
  }

  /** `prefix_xor` bit by bit: each bit flips the parity before it. */
  lemma PrefixXorStep(x: Word, i: nat)
    requires i < 64
    ensures PrefixXor(x)[i] == (x[i] != (i > 0 && PrefixXor(x)[i - 1]))
  {
    PrefixXorIsParity(x);
    assert Parity(x, i, 64) == (x[i] != Parity(x, i - 1, 63));
    ParityWide(x, i - 1, 63, 64);
  }

  // The lowest set bit.

  lemma {:induction false} BorrowOfOne(x: Word, k: nat, i: nat)
    requires k < 64 && i <= 64
    requires x[k] && forall j | 0 <= j < k :: !x[j]
    ensures Borrow(x, One(0), i) <==> 0 < i <= k
    decreases i
  {
    if i > 0 { BorrowOfOne(x, k, i - 1); }
  }

  /** `x & (x - 1)` clears exactly the lowest set bit. */
  lemma ClearLowest(x: Word, k: nat)
    requires k < 64
    requires x[k] && forall j | 0 <= j < k :: !x[j]
    ensures And(x, Sub(x, One(0))) == x[k := false]
  {
    forall i | 0 <= i < 64
      ensures And(x, Sub(x, One(0)))[i] == x[k := false][i]
    {
      BorrowOfOne(x, k, i);
    }
  }

  /** The positions of the set bits from bit k up, in increasing order. */
  function Positions(x: Word, k: nat): (ps: seq<nat>)
    requires k <= 64
    ensures |ps| <= 64 - k
    ensures forall j | 0 <= j < |ps| :: k <= ps[j] < 64 && x[ps[j]]
    ensures forall i, j | 0 <= i < j < |ps| :: ps[i] < ps[j]
    decreases 64 - k
  {
    if k == 64 then [] else
    var rest := Positions(x, k + 1);
    if x[k] then [k] + rest else rest
  }
}
