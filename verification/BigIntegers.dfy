/** Signed-magnitude big integers over limb arrays: storage, and sums and differences. */
module BigIntegers {
  import opened Powers
  import opened Limbs
  import opened LimbOps
  import opened LimbDifference

  /** `std::copy_n` */
  method CopyLimbs(dst: array<Limb>, src: array<Limb>, n: nat)
    requires n <= dst.Length && n <= src.Length && dst != src
    modifies dst
    ensures dst[..n] == src[..n]
  {
    var i := 0;
    while i < n
      invariant i <= n
      invariant forall k | 0 <= k < i :: dst[k] == src[k]
    {
      dst[i] := src[i];
      i := i + 1;
    }
  }

  /** A value is ConditionalNegate of a magnitude; its length carries the sign. */
  class BigInteger {
    var limbs: array<Limb>
    var ssize: int

    ghost predicate Sized()
      reads this
    {
      Abs(ssize) <= limbs.Length
    }

    ghost function Digits(): seq<Limb>
      requires Sized()
      reads this, limbs
    {
      limbs[..Abs(ssize)]
    }

    ghost predicate Valid()
      reads this, limbs
    {
      Sized() && Normal(Digits())
    }

    ghost function Value(): int
      requires Sized()
      reads this, limbs
    {
      ConditionalNegate(ssize < 0, Val(Digits()))
    }

    constructor (capacity: nat)
      ensures Valid() && Value() == 0 && fresh(limbs) && limbs.Length == capacity
    {
      limbs := new Limb[capacity];
      ssize := 0;
    }

    /** `reserve`: a larger array if need be, with the same limbs. */
    method Reserve(n: nat)
      requires Sized()
      modifies this`limbs
      ensures Sized() && ssize == old(ssize) && Digits() == old(Digits())
      ensures limbs.Length >= n && (limbs == old(limbs) || fresh(limbs))
    {
      if limbs.Length < n {
        var a := new Limb[n];
        CopyLimbs(a, limbs, Abs(ssize));
        limbs := a;
      }
    }

    /** `clear_if_reserved` */
    method ClearIfReserved(n: nat)
      modifies this
      ensures ssize == 0 && limbs.Length >= n && (limbs == old(limbs) || fresh(limbs))
    {
      ssize := 0;
      if limbs.Length < n { limbs := new Limb[n]; }
    }

    /** `set_ssize` of a length and a sign. */
    method SetSize(negative: bool, n: nat)
      requires n <= limbs.Length
      modifies this`ssize
      ensures Sized() && ssize == ConditionalNegate(negative, n)
      ensures Digits() == limbs[..n] && Value() == ConditionalNegate(negative, Val(limbs[..n]))
    {
      ssize := ConditionalNegate(negative, n);
      if n == 0 { assert limbs[..n] == []; }
    }
  }

  /** Different integers have different arrays. */
  predicate Apart(a: BigInteger, b: BigInteger)
    reads a, b
  {
    a != b ==> a.limbs != b.limbs
  }

  /** An integer may be its own operand. */
  lemma ApartIs(a: BigInteger, b: BigInteger)
    ensures Apart(a, b) <==> a == b || a.limbs != b.limbs
  {}

  // Adding one limb.

  /** The branch that adds magnitudes: dst := src + y. */
  method AddToMagnitude(dst: array<Limb>, src: array<Limb>, n: nat, y: Limb) returns (len: nat)
    requires 1 <= n < dst.Length && n <= src.Length && src[n - 1] != 0
    modifies dst
    ensures len <= dst.Length && Val(dst[..len]) == old(Val(src[..n])) + y && Normal(dst[..len])
  {
    hide Val, Place, Pow;
    ValTop(src[..n]);
    PowPositive(BASE, n);
    assert src[0..n] == src[..n];
    var cf := Addc1(dst, src, 0, n, y, 0);
    assert dst[0..n] == dst[..n];
    NothingAbove(cf, n);
    len := PushTop(dst, n, cf);
    NormalIff(dst[..len]);
  }

  /** The branch that takes y from a magnitude not less: one zero limb at most is left on top. */
  method TakeFromMagnitude(dst: array<Limb>, src: array<Limb>, n: nat, y: Limb) returns (len: nat)
    requires 1 <= n <= dst.Length && n <= src.Length && src[n - 1] != 0 && (n == 1 ==> src[0] >= y)
    modifies dst
    ensures len <= dst.Length && Val(dst[..len]) == old(Val(src[..n])) - y && Normal(dst[..len])
  {
    ghost var v := Val(src[..n]);
    LimbBelow(src[..n], y);
    assert src[0..n] == src[..n];
    var cf := Subc1(dst, src, 0, n, y, 0);
    assert dst[0..n] == dst[..n];
    NoBorrow(dst[..n], cf, v - y);
    len := n - (if dst[n - 1] == 0 then 1 else 0);
    DropZero(dst, n);
    NormalIff(dst[..len]);
  }

  lemma LimbBelow(s: seq<Limb>, y: Limb)
    requires s != [] && Normal(s) && (|s| == 1 ==> s[0] >= y)
    ensures Val(s) >= y
    ensures |s| >= 2 ==> Val(s) - y >= Pow(BASE, |s| - 2)
  {
    var n := |s|;
    ValTop(s);
    if n == 1 {
      PrefixPlace(s, 0);
      assert s[..1] == s && s[..0] == [];
    } else {
      PowPositive(BASE, n - 2);
      LimbOff(Pow(BASE, n - 2), y);
    }
  }

  lemma LimbOff(p: nat, y: Limb)
    requires p > 0
    ensures BASE * p - y >= p
  {
    MulLessEq(BASE - 1, 1, p);
  }

  /** `_addsub_impl` of a big integer and a limb: dst := lhs + rhs, or lhs - rhs with xsign. */
  method AddSubLimb(dst: BigInteger, lhs: BigInteger, rhs: Limb, xsign: bool)
    requires dst.Valid() && lhs.Valid() && Apart(dst, lhs)
    modifies dst, dst.limbs
    ensures dst.Valid() && dst.Value() == old(lhs.Value()) + ConditionalNegate(xsign, rhs)
    ensures dst.limbs == old(dst.limbs) || fresh(dst.limbs)
  {
    hide Val;
    NoLimbs();
    var lssize := lhs.ssize;
    if lssize == 0 {
      dst.ClearIfReserved(1);
      if rhs == 0 {
        dst.SetSize(false, 0);
      } else {
        dst.limbs[0] := rhs;
        dst.SetSize(xsign, 1);
        OneLimbVal(dst.limbs[..1]);
      }
      return;
    }
    var lusize := Abs(lssize);
    dst.Reserve(lusize + 1);
    var dp, lp := dst.limbs, lhs.limbs;
    if if xsign then lssize < 0 else lssize > 0 {
      var len := AddToMagnitude(dp, lp, lusize, rhs);
      dst.SetSize(xsign, len);
    } else if lusize == 1 && lp[0] < rhs {
      OneLimbVal(lp[..1]);
      dp[0] := rhs - lp[0];
      OneLimbVal(dp[..1]);
      dst.SetSize(xsign, 1);
    } else {
      var len := TakeFromMagnitude(dp, lp, lusize, rhs);
      dst.SetSize(!xsign, len);
    }
  }

  lemma OneLimbVal(s: seq<Limb>)
    requires |s| == 1
    ensures Val(s) == s[0]
  {
    assert s[..0] == [];
  }

  // Adding two big integers.

  predicate Opposite(x: int, y: int) {
    x != 0 && y != 0 && (x < 0) != (y < 0)
  }

  /** The magnitudes as long as the longer one, the shorter with zero limbs on top. */
  ghost predicate ZerosOnTop(a: seq<Limb>, b: seq<Limb>) {
    var n := if |a| < |b| then |b| else |a|;
    LeavesZeros(Padded(a, n), Padded(b, n))
  }

  lemma ZerosOnTopSwap(a: seq<Limb>, b: seq<Limb>)
    ensures ZerosOnTop(a, b) <==> ZerosOnTop(b, a)
  {
    var n := if |a| < |b| then |b| else |a|;
    var x, y := Padded(a, n), Padded(b, n);
    if LeavesZeros(x, y) {
      var k: nat :| Cancels(x, y, k) || Cancels(y, x, k);
      assert LeavesZeros(y, x);
    }
    if LeavesZeros(y, x) {
      var k: nat :| Cancels(y, x, k) || Cancels(x, y, k);
      assert LeavesZeros(x, y);
    }
  }

  lemma ZerosOnTopLonger(a: seq<Limb>, b: seq<Limb>)
    requires |a| >= |b|
    ensures ZerosOnTop(a, b) <==> LeavesZeros(a, Padded(b, |a|))
  {
    assert Padded(a, |a|) == a;
  }

  /** Magnitudes added: a carry limb on top. */
  method AddMagnitudes(dst: array<Limb>, a: array<Limb>, n: nat, b: array<Limb>, m: nat) returns (len: nat)
    requires 1 <= m <= n < dst.Length && n <= a.Length && m <= b.Length && a[n - 1] != 0
    modifies dst
    ensures len <= dst.Length && Val(dst[..len]) == old(Val(a[..n])) + old(Val(b[..m])) && Normal(dst[..len])
  {
    ValTop(a[..n]);
    PowPositive(BASE, n);
    var cf := AddcS(dst, a, n, b, m, 0);
    NothingAbove(cf, n);
    len := PushTop(dst, n, cf);
    NormalIff(dst[..len]);
  }

  /** Magnitudes subtracted, with the sign in the length: right unless the operands leave zeros. */
  method SubMagnitudes(dst: array<Limb>, a: array<Limb>, n: nat, b: array<Limb>, m: nat) returns (ans: int)
    requires 1 <= m <= n <= dst.Length && n <= a.Length && m <= b.Length
    modifies dst
    ensures Abs(ans) <= n
    ensures ConditionalNegate(ans < 0, Val(dst[..Abs(ans)])) == old(Val(a[..n])) - old(Val(b[..m]))
    ensures Normal(dst[..Abs(ans)]) <==> !LeavesZeros(old(a[..n]), Padded(old(b[..m]), n))
  {
    ghost var s, r := a[..n], b[..m];
    PaddedVal(r, n);
    ghost var i;
    ans, i := AbsSubSPos(dst, a, n, b, m);
    NormalDifference(s, Padded(r, n), i, ans, dst[..Abs(ans)]);
  }

  /** The sum of the magnitudes, or their difference, with its sign relative to the first. */
  method Combine(dst: array<Limb>, a: array<Limb>, n: nat, b: array<Limb>, m: nat, opposite: bool) returns (ans: int)
    requires 1 <= m <= n < dst.Length && n <= a.Length && m <= b.Length && a[n - 1] != 0
    modifies dst
    ensures Abs(ans) <= dst.Length
    ensures ConditionalNegate(ans < 0, Val(dst[..Abs(ans)])) ==
      old(Val(a[..n])) + ConditionalNegate(opposite, old(Val(b[..m])))
    ensures Normal(dst[..Abs(ans)]) <==> !(opposite && LeavesZeros(old(a[..n]), Padded(old(b[..m]), n)))
  {
    if opposite {
      ans := SubMagnitudes(dst, a, n, b, m);
    } else {
      ans := AddMagnitudes(dst, a, n, b, m);
    }
  }

  /** `_addsub_impl` with the operands in order of length and the sign of subtraction in rssize. */
  method AddOrdered(dst: BigInteger, lhs: BigInteger, lssize: int, rhs: BigInteger, rssize: int)
    requires dst.Valid() && lhs.Valid() && rhs.Valid() && Apart(dst, lhs) && Apart(dst, rhs)
    requires Abs(lssize) == Abs(lhs.ssize) >= Abs(rssize) == Abs(rhs.ssize)
    modifies dst, dst.limbs
    ensures dst.Sized() && (dst.limbs == old(dst.limbs) || fresh(dst.limbs))
    ensures rssize == 0 && dst == lhs ==> dst.Value() == old(dst.Value())
    ensures rssize != 0 || dst != lhs ==>
      dst.Value() == old(ConditionalNegate(lssize < 0, Val(lhs.Digits()))) +
                     old(ConditionalNegate(rssize < 0, Val(rhs.Digits())))
    ensures dst.Valid() <==>
      !(Opposite(lssize, rssize) && LeavesZeros(old(lhs.Digits()), Padded(old(rhs.Digits()), Abs(lssize))))
  {
    hide Val, Place, Pow;
    NoLimbs();
    var lusize, rusize := Abs(lssize), Abs(rssize);
    dst.Reserve(lusize + 1);
    var dp, lp, rp := dst.limbs, lhs.limbs, rhs.limbs;
    if rusize == 0 {
      if lp != dp {
        CopyLimbs(dp, lp, lusize);
        dst.SetSize(lssize < 0, lusize);
      }
      return;
    }
    var ans := Combine(dp, lp, lusize, rp, rusize, (lssize < 0) != (rssize < 0));
    dst.SetSize((lssize < 0) != (ans < 0), Abs(ans));
  }

  /**
   Zero limbs stay on top exactly if the difference is shorter than the highest place k where the
   magnitudes differ by two limbs or more.
   */
  lemma ZerosOnTopIs(a: seq<Limb>, b: seq<Limb>, x: seq<Limb>, y: seq<Limb>, k: nat)
    requires |x| == |y| == (if |a| < |b| then |b| else |a|) && x == Padded(a, |x|) && y == Padded(b, |y|)
    requires k < |x| && x[k] != y[k] && forall j | k < j < |x| :: x[j] == y[j]
    ensures ZerosOnTop(a, b) <==> k >= 1 && Abs(Val(a) - Val(b)) < Pow(BASE, k - 1)
  {
    hide Val, LeavesZeros, Padded, Pow;
    PaddedVal(a, |x|);
    PaddedVal(b, |y|);
    ShortDifference(x, y, k);
  }

  lemma ShortDifference(x: seq<Limb>, y: seq<Limb>, k: nat)
    requires HighestDifference(x, y, k + 1)
    ensures LeavesZeros(x, y) <==> k >= 1 && Abs(Val(x) - Val(y)) < Pow(BASE, k - 1)
  {
    hide Val, Pow, LeavesZeros;
    LeavesZerosAt(x, y, k + 1);
    HighestDecides(x, y, k + 1);
    if k >= 1 {
      if x[k] > y[k] { NotCancelled(x, y, k); } else { NotCancelled(y, x, k); }
    }
  }

  lemma NotCancelled(x: seq<Limb>, y: seq<Limb>, k: nat)
    requires HighestDifference(x, y, k + 1) && k >= 1 && x[k] > y[k]
    ensures Val(x) - Val(y) < Pow(BASE, k - 1) <==> Cancels(x, y, k)
    ensures !Cancels(y, x, k)
  {
    CancelsIff(x, y, k + 1);
  }

  /**
   `_addsub_impl` of two big integers: dst := lhs + rhs, or lhs - rhs with xsign. The value is
   right unless 0 - dst is put into dst, which leaves dst as it is; the length is right unless
   magnitudes are subtracted that leave more than one zero limb on top.
   */
  method AddSub(dst: BigInteger, lhs: BigInteger, rhs: BigInteger, xsign: bool)
    requires dst.Valid() && lhs.Valid() && rhs.Valid() && Apart(dst, lhs) && Apart(dst, rhs)
    modifies dst, dst.limbs
    ensures dst.Sized() && (dst.limbs == old(dst.limbs) || fresh(dst.limbs))
    ensures var l, r := old(lhs.Value()), old(rhs.Value());
      && dst.Value() == (if xsign && dst == rhs && l == 0 then r else if xsign then l - r else l + r)
      && (dst.Value() == (if xsign then l - r else l + r) <==> !(xsign && dst == rhs && l == 0 && r != 0))
    ensures var l, t := old(lhs.Value()), if xsign then -old(rhs.Value()) else old(rhs.Value());
      dst.Valid() <==> !((l < 0 < t || t < 0 < l) && ZerosOnTop(old(lhs.Digits()), old(rhs.Digits())))
  {
    hide Place;
    var lssize, rssize := lhs.ssize, ConditionalNegate(xsign, rhs.ssize);
    ghost var l, r := lhs.Digits(), rhs.Digits();
    SignOf(lhs);
    SignOf(rhs);
    if Abs(lssize) < Abs(rssize) {
      ZerosOnTopSwap(l, r);
      ZerosOnTopLonger(r, l);
      AddOrdered(dst, rhs, rssize, lhs, lssize);
    } else {
      ZerosOnTopLonger(l, r);
      AddOrdered(dst, lhs, lssize, rhs, rssize);
    }
  }

  /** The length tells the sign and the number of limbs of the value. */
  lemma SignOf(x: BigInteger)
    requires x.Valid()
    ensures x.Value() == 0 <==> x.ssize == 0
    ensures x.Value() < 0 <==> x.ssize < 0
    ensures Abs(x.Value()) == Val(x.Digits()) && Abs(x.ssize) == Length(Abs(x.Value()))
  {
    if x.ssize != 0 { ValTop(x.Digits()); }
    LengthIs(x.Digits());
  }

  /** 2^128 - (2^128 - 1): the difference, 1, is left with a zero limb on top. */
  lemma ZerosOnTopExample()
    ensures ZerosOnTop([0, 0, 1], [BASE - 1, BASE - 1])
  {
    var a: seq<Limb>, b: seq<Limb> := [0, 0, 1], [BASE - 1, BASE - 1];
    var p := Padded(b, 3);
    assert p == [BASE - 1, BASE - 1, 0] && Padded(a, 3) == a;
    OneLimbVal(a[..1]);
    OneLimbVal(p[..1]);
    assert Cancels(a, p, 2);
  }

  /** A number of one limb. */
  method FromLimb(y: Limb, negative: bool) returns (x: BigInteger)
    ensures x.Valid() && x.Value() == ConditionalNegate(negative, y) && fresh(x) && fresh(x.limbs)
  {
    x := new BigInteger(1);
    AddSubLimb(x, x, y, negative);
  }

  /** 0 - 1 into 1 leaves 1. */
  method SignLostExample() returns (x: BigInteger)
    ensures x.Valid() && x.Value() == 1
  {
    x := FromLimb(1, false);
    var zero := new BigInteger(0);
    AddSub(x, zero, x, true);
  }
}
