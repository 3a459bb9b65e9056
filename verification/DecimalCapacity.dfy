/** How many limbs a number of n digits is given, and for which n they are enough. */
module DecimalCapacity {
  import opened Powers
  import opened Limbs
  import opened BigInts
  import opened FloatFormat

  const TWO_TO_32: nat := 0x1_0000_0000

  /** `_ceil_div`, in 32-bit arithmetic. */
  function CeilDiv(n: nat, d: nat): nat
    requires d > 0
  {
    (n + d - 1) % TWO_TO_32 / d
  }

  /** Limbs for n digits, in 32-bit arithmetic. */
  function Capacity(base: nat, n: nat): nat
    requires base in {2, 4, 8, 10, 16, 32}
  {
    match base
    case 2 => CeilDiv(n, 64)
    case 8 => CeilDiv(n * 3 % TWO_TO_32, 64)
    case 16 => CeilDiv(n, 16)
    case 4 => CeilDiv(n * 2 % TWO_TO_32, 64)
    case 32 => CeilDiv(n * 5 % TWO_TO_32, 64)
    case _ => CeilDiv(n * 10 % TWO_TO_32 / 3, 64)
  }

  /** Ten thirds of a bit a digit, rounded down, are enough from 59 digits on (for 56 they are not). */
  lemma {:induction false} TenThirds(n: nat)
    requires n >= 59
    ensures Pow(10, n) <= Pow(2, 10 * n / 3)
  {
    if n < 62 {
      FirstThree(n, 57, 192);
    } else {
      TenThirds(n - 3);
      PowAdd(10, 3, n - 3);
      PowAdd(2, 10, 10 * (n - 3) / 3);
      assert Pow(10, 3) == 1000 && Pow(2, 10) == 1024;
      ProductBelow(1000, Pow(10, n - 3), 1024, Pow(2, 10 * (n - 3) / 3));
    }
  }

  lemma NineteenDigits()
    ensures Pow(10, 19) == 10000000000000000000 && Pow(2, 64) == BASE
  {
    TableOfTens(19);
    BaseIsTwoTo64();
  }

  /** Three limbs hold 57 digits, and leave four bits for two more. */
  lemma ThreeLimbs(a: nat, c: nat)
    requires a == 57 && c == 192
    ensures 100 * Pow(10, a) < 16 * Pow(2, c)
  {
    NineteenDigits();
    PowPow(10, 19, 3);
    PowPow(2, 64, 3);
    Cube(Pow(10, 19));
    Cube(Pow(2, 64));
  }

  lemma Cube(x: nat)
    ensures Pow(x, 3) == x * (x * x)
  {
    assert Pow(x, 1) == x;
    assert Pow(x, 2) == x * x;
  }

  lemma FirstThree(n: nat, a: nat, c: nat)
    requires 59 <= n < 62 && a == 57 && c == 192
    ensures Pow(10, n) <= Pow(2, 10 * n / 3)
  {
    hide *;
    ThreeLimbs(a, c);
    if n == 59 {
      MoreDigits(a, 2, 100, c, 4, 16);
    } else if n == 60 {
      MoreDigits(a, 3, 1000, c, 8, 256);
    } else {
      MoreDigits(a, 4, 10000, c, 11, 2048);
    }
  }

  lemma MoreDigits(a: nat, i: nat, x: nat, c: nat, j: nat, y: nat)
    requires 100 * Pow(10, a) < 16 * Pow(2, c)
    requires (i, x, j, y) in {(2, 100, 4, 16), (3, 1000, 8, 256), (4, 10000, 11, 2048)}
    ensures Pow(10, a + i) <= Pow(2, c + j)
  {
    assert Pow(10, i) == x && Pow(2, j) == y by {
      assert Pow(10, 2) == 100 && Pow(10, 3) == 1000 && Pow(10, 4) == 10000;
      assert Pow(2, 4) == 16 && Pow(2, 8) == 256 && Pow(2, 11) == 2048;
    }
    PowAdd(10, a, i);
    PowAdd(2, c, j);
    FewBits(Pow(10, a), Pow(2, c), x, y);
  }

  lemma FewBits(t: nat, b: nat, x: nat, y: nat)
    requires 100 * t < 16 * b
    requires (x == 100 && y == 16) || (x == 1000 && y == 256) || (x == 10000 && y == 2048)
    ensures t * x <= b * y
  {}

  /** The largest number of digits for which nothing wraps around in 32 bits. */
  function Last(base: nat): nat
    requires base in {2, 4, 8, 10, 16, 32}
  {
    match base
    case 2 => 4294967232
    case 8 => 1431655744
    case 16 => 4294967280
    case 4 => 2147483616
    case 32 => 858993446
    case _ => 429496729
  }

  // Base ten.

  /** The capacity in bits is ten thirds of a bit a digit, rounded up to limbs. */
  lemma CapacityIs(n: nat)
    requires n <= Last(10)
    ensures 64 * Capacity(10, n) >= 10 * n / 3
    ensures n < 59 ==> n <= 19 * Capacity(10, n)
  {
    var x := n * 10 / 3;
    assert n * 10 % TWO_TO_32 / 3 == x && (x + 63) % TWO_TO_32 == x + 63;
    RoundedUp(x);
  }

  lemma RoundedUp(x: nat)
    ensures x <= 64 * ((x + 63) / 64)
  {}

  lemma Enough(n: nat)
    requires n <= Last(10)
    ensures Pow(10, n) <= Pow(2, 64 * Capacity(10, n))
  {
    CapacityIs(n);
    if n >= 59 {
      TenThirds(n);
      PowMonotone(2, 10 * n / 3, 64 * Capacity(10, n));
    } else {
      NineteenALimb(n, Capacity(10, n));
    }
  }

  /** Nineteen digits fit into a limb. */
  lemma NineteenALimb(n: nat, c: nat)
    requires n <= 19 * c
    ensures Pow(10, n) <= Pow(2, 64 * c)
  {
    NineteenDigits();
    PowMonotone(10, n, 19 * c);
    PowPow(10, 19, c);
    PowPow(2, 64, c);
    PowBaseMonotone(Pow(10, 19), Pow(2, 64), c);
  }

  lemma TooFew(n: nat)
    requires Last(10) < n < TWO_TO_32
    ensures Pow(10, n) > Pow(2, 64 * Capacity(10, n))
  {
    WrappedCapacity(n);
    PowStrict(2, 64 * Capacity(10, n), 3 * n);
    EightsBelowTens(n);
  }

  lemma WrappedCapacity(n: nat)
    requires Last(10) < n < TWO_TO_32
    ensures 64 * Capacity(10, n) < 3 * n
  {
    var w, j := n * 10 % TWO_TO_32, n * 10 / TWO_TO_32;
    assert n * 10 == j * TWO_TO_32 + w;
    assert j >= 1;
  }

  // Powers of two.

  /** How many bits a digit has. */
  function Bits(base: nat): nat
    requires base in {2, 4, 8, 16, 32}
  {
    match base
    case 2 => 1
    case 4 => 2
    case 8 => 3
    case 16 => 4
    case _ => 5
  }

  lemma BaseIsPower(base: nat, n: nat)
    requires base in {2, 4, 8, 16, 32}
    ensures Pow(base, n) == Pow(2, Bits(base) * n)
  {
    PowPow(2, Bits(base), n);
    assert Pow(2, 1) == 2 && Pow(2, 2) == 4 && Pow(2, 3) == 8 && Pow(2, 4) == 16 && Pow(2, 5) == 32;
  }

  /** Rounding x bits up to limbs of d at a time is right up to where adding d - 1 wraps around. */
  lemma CeilDivFits(x: nat, d: nat)
    requires d in {16, 64} && x < TWO_TO_32
    ensures x <= d * CeilDiv(x, d) <==> x <= TWO_TO_32 - d
  {
    if x > TWO_TO_32 - d { assert (x + d - 1) % TWO_TO_32 == x + d - 1 - TWO_TO_32; }
  }

  /** Bits of digits counted in 32 bits: where the product wraps around, what is left is too little. */
  lemma WrappedBits(n: nat, bits: nat)
    requires bits in {2, 3, 5} && n < TWO_TO_32
    ensures bits * n < TWO_TO_32 ==> n * bits % TWO_TO_32 == bits * n
    ensures bits * n >= TWO_TO_32 ==> n * bits % TWO_TO_32 + 64 <= bits * n
  {}

  lemma CeilDivAtMost(x: nat)
    ensures 64 * CeilDiv(x, 64) < x + 64
  {}

  lemma BitsFit(base: nat, n: nat)
    requires base in {2, 4, 8, 16, 32} && n < TWO_TO_32
    ensures Bits(base) * n <= 64 * Capacity(base, n) <==> n <= Last(base)
  {
    if base == 2 {
      CeilDivFits(n, 64);
    } else if base == 16 {
      CeilDivFits(n, 16);
    } else {
      var bits, x := Bits(base), n * Bits(base) % TWO_TO_32;
      WrappedBits(n, bits);
      CeilDivFits(x, 64);
      CeilDivAtMost(x);
    }
  }

  /** The capacity holds every number of n digits exactly when n is not beyond the last. */
  lemma CapacitySuffices(base: nat, n: nat)
    requires base in {2, 4, 8, 10, 16, 32} && n < TWO_TO_32
    ensures Pow(base, n) <= Pow(2, 64 * Capacity(base, n)) <==> n <= Last(base)
  {
    if base == 10 {
      if n <= Last(10) { Enough(n); } else { TooFew(n); }
    } else {
      BitsFit(base, n);
      BaseIsPower(base, n);
      var x, y := Bits(base) * n, 64 * Capacity(base, n);
      if x <= y { PowMonotone(2, x, y); } else { PowStrict(2, y, x); }
    }
  }
}
