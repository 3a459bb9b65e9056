/** Eight decimal digits in one 64-bit word: read from memory, compared and converted at once. */
module PackedDigits {
  import opened Powers
  import opened DecimalDigits

  const WORD: nat := 0x1_0000_0000_0000_0000
  const EIGHT_ZEROS: nat := 0x3030_3030_3030_3030

  /** `read_memory<uint64_t>`: the characters of the digits, the first in the lowest byte. */
  function Memory(ds: seq<Digit>): nat {
    if ds == [] then 0 else '0' as int + ds[0] + 256 * Memory(ds[1..])
  }

  /** Digits in lanes of a byte, the first in the lowest. */
  function Bytes(ds: seq<Digit>): nat {
    if ds == [] then 0 else ds[0] + 256 * Bytes(ds[1..])
  }

  /** The characters of as many zeros. */
  function Zeros(n: nat): nat {
    if n == 0 then 0 else '0' as int + 256 * Zeros(n - 1)
  }

  lemma {:induction false} MemoryIs(ds: seq<Digit>)
    ensures Memory(ds) == Bytes(ds) + Zeros(|ds|)
  {
    if ds != [] { MemoryIs(ds[1..]); }
  }

  lemma {:induction false} BytesZero(ds: seq<Digit>)
    ensures Bytes(ds) == 0 <==> AllZero(ds)
  {
    if ds != [] {
      BytesZero(ds[1..]);
      assert AllZero(ds) ==> ds[0] == 0;
      assert AllZero(ds) <==> ds[0] == 0 && AllZero(ds[1..]) by {
        if ds[0] == 0 && AllZero(ds[1..]) {
          forall i | 0 <= i < |ds| ensures ds[i] == 0 { assert i > 0 ==> ds[1..][i - 1] == 0; }
        }
      }
    }
  }

  lemma EightZerosIs()
    ensures Zeros(8) == EIGHT_ZEROS
  {
    assert Zeros(4) == 0x3030_3030;
  }

  /** The word compares equal with that of eight zeros exactly if the digits are zeros. */
  lemma MemoryOfZeros(ds: seq<Digit>)
    requires |ds| == 8
    ensures Memory(ds) == EIGHT_ZEROS <==> AllZero(ds)
  {
    MemoryIs(ds);
    BytesZero(ds);
    EightZerosIs();
  }

  /** A word and a mask that keeps every other lane: the lowest, the third and so on, n in all. */
  function KeepEven(x: nat, lane: nat, n: nat): nat
    requires lane > 0
    decreases n
  {
    if n == 0 then 0 else x % lane + TwoLanes(KeepEven(x / lane / lane, lane, n - 1), lane)
  }

  function TwoLanes(x: nat, lane: nat): nat {
    x * lane * lane
  }

  lemma KeepOne(x: nat, lane: nat, n: nat, e: nat, f: nat, rest: nat)
    requires n > 0 && e < lane && f < lane && x == e + lane * (f + lane * rest)
    ensures KeepEven(x, lane, n) == e + TwoLanes(KeepEven(rest, lane, n - 1), lane)
  {
    DivModIs(x, lane, f + lane * rest, e);
    DivModIs(f + lane * rest, lane, rest, f);
  }

  /** Pairs of digits: each digit times 10 is added to the next. */
  function ToPairs(x: nat): nat {
    KeepEven(x * 2561 % WORD / 256, 256, 4)
  }

  /** Four digits from pairs. */
  function ToFours(x: nat): nat {
    KeepEven(x * 6553601 % WORD / 65536, 65536, 2)
  }

  /** All eight from fours. */
  function ToEight(x: nat): nat {
    x * 42949672960001 % WORD / 0x1_0000_0000
  }

  /** `_fast_conv_8<10>` */
  function Convert(x: nat): nat {
    ToEight(ToFours(ToPairs(x)))
  }

  /** A product whose lanes do not overflow, without its lowest lane and what is beyond the word. */
  lemma Middle(y: nat, low: nat, lane: nat, mid: nat, high: nat)
    requires lane > 0 && y == high * WORD + (mid * lane + low) && low < lane && mid * lane + low < WORD
    ensures y % WORD / lane == mid
  {
    DivModIs(y, WORD, high, mid * lane + low);
    DivModIs(mid * lane + low, lane, mid, low);
  }

  lemma Pairs(d0: nat, d1: nat, d2: nat, d3: nat, d4: nat, d5: nat, d6: nat, d7: nat, x: nat)
    requires d0 < 10 && d1 < 10 && d2 < 10 && d3 < 10 && d4 < 10 && d5 < 10 && d6 < 10 && d7 < 10
    requires x == d0 + 256 * (d1 + 256 * (d2 + 256 * (d3 + 256 * (d4 + 256 * (d5 + 256 * (d6 + 256 * d7))))))
    ensures ToPairs(x) ==
      10 * d0 + d1 + 65536 * (10 * d2 + d3 + 65536 * (10 * d4 + d5 + 65536 * (10 * d6 + d7)))
  {
    assert KeepEven(0, 256, 0) == 0;
    hide KeepEven;
    var e6 := 10 * d6 + d7;
    var r4 := 10 * d4 + d5 + 256 * (10 * d5 + d6 + 256 * e6);
    var r2 := 10 * d2 + d3 + 256 * (10 * d3 + d4 + 256 * r4);
    var r0 := 10 * d0 + d1 + 256 * (10 * d1 + d2 + 256 * r2);
    Middle(x * 2561, d0, 256, r0, 10 * d7);
    KeepOne(r0, 256, 4, 10 * d0 + d1, 10 * d1 + d2, r2);
    KeepOne(r2, 256, 3, 10 * d2 + d3, 10 * d3 + d4, r4);
    KeepOne(r4, 256, 2, 10 * d4 + d5, 10 * d5 + d6, e6);
    KeepOne(e6, 256, 1, e6, 0, 0);
  }

  lemma Fours(p0: nat, p1: nat, p2: nat, p3: nat, x: nat)
    requires p0 < 100 && p1 < 100 && p2 < 100 && p3 < 100
    requires x == p0 + 65536 * (p1 + 65536 * (p2 + 65536 * p3))
    ensures ToFours(x) == 100 * p0 + p1 + 0x1_0000_0000 * (100 * p2 + p3)
  {
    var e2 := 100 * p2 + p3;
    var r0 := 100 * p0 + p1 + 65536 * (100 * p1 + p2 + 65536 * e2);
    Middle(x * 6553601, p0, 65536, r0, 100 * p3);
    KeepOne(r0, 65536, 2, 100 * p0 + p1, 100 * p1 + p2, e2);
    KeepOne(e2, 65536, 1, e2, 0, 0);
  }

  lemma Eight(q0: nat, q1: nat, x: nat)
    requires q0 < 10000 && q1 < 10000 && x == q0 + 0x1_0000_0000 * q1
    ensures ToEight(x) == 10000 * q0 + q1
  {
    Middle(x * 42949672960001, q0, 0x1_0000_0000, 10000 * q0 + q1, 10000 * q1);
  }

  lemma FourDigits(ds: seq<Digit>, a: nat, b: nat, c: nat, d: nat)
    requires |ds| >= 4 && ds[0] == a && ds[1] == b && ds[2] == c && ds[3] == d
    ensures Number(ds[..4]) == 1000 * a + 100 * b + 10 * c + d
    ensures Bytes(ds) == a + 256 * (b + 256 * (c + 256 * (d + 256 * Bytes(ds[4..]))))
  {
    FourNumber(ds[..4], a, b, c, d);
    assert ds[1..][1..] == ds[2..] && ds[2..][1..] == ds[3..] && ds[3..][1..] == ds[4..];
    assert Bytes(ds[3..]) == d + 256 * Bytes(ds[4..]);
    assert Bytes(ds[2..]) == c + 256 * Bytes(ds[3..]);
    assert Bytes(ds[1..]) == b + 256 * Bytes(ds[2..]);
  }

  lemma FourNumber(ds: seq<Digit>, a: nat, b: nat, c: nat, d: nat)
    requires |ds| == 4 && ds[0] == a && ds[1] == b && ds[2] == c && ds[3] == d
    ensures Number(ds) == 1000 * a + 100 * b + 10 * c + d
  {
    assert ds[..3][..2] == ds[..2] && ds[..2][..1] == ds[..1] && ds[..1][..0] == [];
    assert Number(ds[..1]) == a;
    assert Number(ds[..2]) == 10 * Number(ds[..1]) + b;
    assert Number(ds[..3]) == 10 * Number(ds[..2]) + c;
  }

  lemma Halves(ds: seq<Digit>)
    requires |ds| == 8
    ensures Number(ds) == 10000 * Number(ds[..4]) + Number(ds[4..])
  {
    assert ds == ds[..4] + ds[4..];
    NumberAppend(ds[..4], ds[4..]);
    assert Pow(10, 4) == 10000;
  }

  lemma ConvertParts(d0: nat, d1: nat, d2: nat, d3: nat, d4: nat, d5: nat, d6: nat, d7: nat, x: nat, q0: nat, q1: nat)
    requires d0 < 10 && d1 < 10 && d2 < 10 && d3 < 10 && d4 < 10 && d5 < 10 && d6 < 10 && d7 < 10
    requires x == d0 + 256 * (d1 + 256 * (d2 + 256 * (d3 + 256 * (d4 + 256 * (d5 + 256 * (d6 + 256 * d7))))))
    requires q0 == 1000 * d0 + 100 * d1 + 10 * d2 + d3 && q1 == 1000 * d4 + 100 * d5 + 10 * d6 + d7
    ensures Convert(x) == 10000 * q0 + q1
  {
    Pairs(d0, d1, d2, d3, d4, d5, d6, d7, x);
    FromPairs(10 * d0 + d1, 10 * d2 + d3, 10 * d4 + d5, 10 * d6 + d7, ToPairs(x), q0, q1);
  }

  lemma FromPairs(p0: nat, p1: nat, p2: nat, p3: nat, x: nat, q0: nat, q1: nat)
    requires p0 < 100 && p1 < 100 && p2 < 100 && p3 < 100 && q0 == 100 * p0 + p1 && q1 == 100 * p2 + p3
    requires x == p0 + 65536 * (p1 + 65536 * (p2 + 65536 * p3))
    ensures ToEight(ToFours(x)) == 10000 * q0 + q1
  {
    Fours(p0, p1, p2, p3, x);
    Eight(q0, q1, ToFours(x));
  }

  lemma EightBytes(ds: seq<Digit>)
    requires |ds| == 8
    ensures var d0: int, d1: int, d2: int, d3: int := ds[0], ds[1], ds[2], ds[3];
      var d4: int, d5: int, d6: int, d7: int := ds[4], ds[5], ds[6], ds[7];
      && Bytes(ds) == d0 + 256 * (d1 + 256 * (d2 + 256 * (d3 + 256 * (d4 + 256 * (d5 + 256 * (d6 + 256 * d7))))))
      && Number(ds[..4]) == 1000 * d0 + 100 * d1 + 10 * d2 + d3
      && Number(ds[4..]) == 1000 * d4 + 100 * d5 + 10 * d6 + d7
  {
    var low, high := ds[..4], ds[4..];
    assert Bytes([]) == 0 && high[4..] == [] && high[..4] == high;
    hide Bytes, Number;
    FourDigits(ds, ds[0], ds[1], ds[2], ds[3]);
    FourDigits(high, ds[4], ds[5], ds[6], ds[7]);
  }

  /** Converting the word gives the number that the eight digits write. */
  lemma ConvertIs(ds: seq<Digit>)
    requires |ds| == 8
    ensures Memory(ds) >= EIGHT_ZEROS && Convert(Memory(ds) - EIGHT_ZEROS) == Number(ds)
  {
    MemoryIs(ds);
    EightZerosIs();
    hide *;
    EightBytes(ds);
    Halves(ds);
    ConvertParts(ds[0], ds[1], ds[2], ds[3], ds[4], ds[5], ds[6], ds[7], Bytes(ds), Number(ds[..4]), Number(ds[4..]));
  }

  /** `parse_eight_digits_unrolled` */
  method ParseEight(ds: seq<Digit>) returns (r: nat)
    requires |ds| == 8
    ensures r == Number(ds) < 100000000
  {
    ConvertIs(ds);
    NumberBound(ds);
    assert Pow(10, 8) == 100000000;
    r := Convert(Memory(ds) - EIGHT_ZEROS);
  }
}
