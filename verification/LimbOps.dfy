/** The limb-array primitives under the big integer operations, by schoolbook loops. */
module LimbOps {
  import opened Powers
  import opened Limbs

  lemma {:induction false} ValZeros(a: seq<Limb>)
    requires forall i | 0 <= i < |a| :: a[i] == 0
    ensures Val(a) == 0
  {
    if a != [] {
      ValZeros(a[..|a| - 1]);
      PlaceIs(0, |a| - 1);
    }
  }

  lemma {:induction false} PlaceNegate(x: int, i: nat)
    ensures Place(0 - x, i) == 0 - Place(x, i)
  {
    if i > 0 { PlaceNegate(x, i - 1); }
  }

  /** A limb d and a carry out of it stand for the term t and the carry into it, k places up. */
  lemma CarryStep(low: int, c: int, sum: int, d: int, next: int, t: int, k: nat)
    requires low + Place(c, k) == sum && d + next * BASE == t + c
    ensures low + Place(d, k) + Place(next, k + 1) == sum + Place(t, k)
  {
    PlaceUp(next, k);
    PlaceAdd(d, BASE * next, k);
    PlaceAdd(t, c, k);
  }

  /** Before the first limb, a sum is what is carried in. */
  lemma NothingYet(dst: array<Limb>, at: nat, s: seq<Limb>, x: int)
    requires at <= dst.Length
    ensures Val(dst[at..at]) == Val(s[..0]) == 0 && Place(x, 0) == x
  {
    assert dst[at..at] == [] && s[..0] == [];
  }

  /**
   Writes the limb of a term and a carry, either of which may be negative: the limbs from `at` on
   and the carry stood for the sum without the term, and stand for the sum with it.
   */
  method PutLimb(dst: array<Limb>, at: nat, i: nat, t: int, c: int, ghost sum: int) returns (next: int)
    requires at + i < dst.Length && Val(dst[at..at + i]) + Place(c, i) == sum - Place(t, i)
    modifies dst
    ensures Val(dst[at..at + i + 1]) + Place(next, i + 1) == sum
    ensures next * BASE <= t + c < next * BASE + BASE
    ensures forall k | 0 <= k < dst.Length && k != at + i :: dst[k] == old(dst[k])
  {
    hide Val, Place;
    ghost var low := dst[at..at + i];
    var d := (t + c) % BASE;
    next := (t + c) / BASE;
    dst[at + i] := d;
    assert dst[at..at + i + 1] == low + [d];
    ValSnoc(low, d);
    CarryStep(Val(low), c, sum - Place(t, i), d, next, t, i);
  }

  /** The sums and multiples of numbers, one limb on. */
  lemma SumStep(s: seq<Limb>, r: seq<Limb>, t: int, k: nat)
    requires k < |s| == |r| && t == s[k] as int + r[k]
    ensures Val(s[..k]) + Val(r[..k]) == Val(s[..k + 1]) + Val(r[..k + 1]) - Place(t, k)
  {
    hide Val, Place;
    PrefixPlace(s, k);
    PrefixPlace(r, k);
    PlaceAdd(s[k], r[k], k);
  }

  lemma DifferenceStep(s: seq<Limb>, r: seq<Limb>, t: int, k: nat)
    requires k < |s| == |r| && t == s[k] as int - r[k]
    ensures Val(s[..k]) - Val(r[..k]) == Val(s[..k + 1]) - Val(r[..k + 1]) - Place(t, k)
  {
    hide Val, Place;
    PrefixPlace(s, k);
    PrefixPlace(r, k);
    PlaceAdd(t, r[k], k);
  }

  lemma ProductStep(w: seq<Limb>, m: int, t: int, k: nat)
    requires k < |w| && t == w[k] * m
    ensures Val(w[..k]) * m == Val(w[..k + 1]) * m - Place(t, k)
  {
    hide Val, Place;
    PrefixPlace(w, k);
    TimesPlace(m, w[k], k);
    Distribute(m, Val(w[..k]), Place(w[k], k));
  }

  lemma RowStep(r: seq<Limb>, w: seq<Limb>, m: int, t: int, k: nat)
    requires k < |r| == |w| && t == r[k] + w[k] * m
    ensures Val(r[..k]) + Val(w[..k]) * m == Val(r[..k + 1]) + Val(w[..k + 1]) * m - Place(t, k)
  {
    hide Val, Place;
    PrefixPlace(r, k);
    var u := w[k] * m;
    ProductStep(w, m, u, k);
    PlaceAdd(r[k], u, k);
  }

  /** `addc_1` */
  method Addc1(dst: array<Limb>, src: array<Limb>, at: nat, n: nat, y: Limb, cin: nat) returns (cf: nat)
    requires n >= 1 && at + n <= dst.Length && at + n <= src.Length && cin <= 1
    modifies dst
    ensures cf <= 1
    ensures Val(dst[at..at + n]) + Place(cf, n) == old(Val(src[at..at + n])) + y + cin
    ensures forall k | 0 <= k < at || at + n <= k < dst.Length :: dst[k] == old(dst[k])
  {
    hide Val, Place;
    ghost var s := src[at..at + n];
    cf := y + cin;
    ghost var sum: int := cf;
    NothingYet(dst, at, s, y + cin);
    for i := 0 to n
      invariant cf <= BASE && (i > 0 ==> cf <= 1)
      invariant Val(dst[at..at + i]) + Place(cf, i) == sum == Val(s[..i]) + y + cin
      invariant forall k | 0 <= k < at || at + i <= k < dst.Length :: dst[k] == old(dst[k])
    {
      assert src[at + i] == s[i];
      PrefixPlace(s, i);
      sum := Val(s[..i + 1]) + y + cin;
      cf := PutLimb(dst, at, i, src[at + i], cf, sum);
    }
    assert s[..n] == s;
  }

  /** `subc_1` */
  method Subc1(dst: array<Limb>, src: array<Limb>, at: nat, n: nat, y: Limb, cin: nat) returns (cf: nat)
    requires n >= 1 && at + n <= dst.Length && at + n <= src.Length && cin <= 1
    modifies dst
    ensures cf <= 1
    ensures Val(dst[at..at + n]) - Place(cf, n) == old(Val(src[at..at + n])) - y - cin
    ensures forall k | 0 <= k < at || at + n <= k < dst.Length :: dst[k] == old(dst[k])
  {
    hide Val, Place;
    ghost var s := src[at..at + n];
    var c: int := 0 - (y + cin);
    ghost var sum: int := c;
    NothingYet(dst, at, s, 0 - y - cin);
    for i := 0 to n
      invariant c <= 0 <= c + BASE && (i > 0 ==> c >= -1)
      invariant Val(dst[at..at + i]) + Place(c, i) == sum == Val(s[..i]) - y - cin
      invariant forall k | 0 <= k < at || at + i <= k < dst.Length :: dst[k] == old(dst[k])
    {
      assert src[at + i] == s[i];
      PrefixPlace(s, i);
      sum := Val(s[..i + 1]) - y - cin;
      c := PutLimb(dst, at, i, src[at + i], c, sum);
    }
    assert s[..n] == s;
    PlaceNegate(c, n);
    cf := 0 - c;
  }

  /** One limb of a sum, with the carry into it. */
  method PutSum(dst: array<Limb>, a: array<Limb>, at: nat, b: array<Limb>, i: nat, c: int,
          ghost s: seq<Limb>, ghost r: seq<Limb>, ghost cin: int)
    returns (next: int)
    requires at + i < dst.Length && at + i < a.Length && i < b.Length && i < |s| == |r|
    requires a[at + i] == s[i] && b[i] == r[i]
    requires Val(dst[at..at + i]) + Place(c, i) == Val(s[..i]) + Val(r[..i]) + cin
    modifies dst
    ensures Val(dst[at..at + i + 1]) + Place(next, i + 1) == Val(s[..i + 1]) + Val(r[..i + 1]) + cin
    ensures next * BASE <= s[i] as int + r[i] + c < next * BASE + BASE
    ensures forall k | 0 <= k < dst.Length && k != at + i :: dst[k] == old(dst[k])
  {
    hide Val, Place;
    var t := a[at + i] as int + b[i];
    SumStep(s, r, t, i);
    next := PutLimb(dst, at, i, t, c, Val(s[..i + 1]) + Val(r[..i + 1]) + cin);
  }

  /** `addc_n` from place `at` of dst and a on; dst may be a, and at place 0 it may be b. */
  method AddcAt(dst: array<Limb>, a: array<Limb>, at: nat, b: array<Limb>, n: nat, cin: nat) returns (cf: nat)
    requires at + n <= dst.Length && at + n <= a.Length && n <= b.Length && cin <= 1 && (dst == b ==> at == 0)
    modifies dst
    ensures cf <= 1
    ensures Val(dst[at..at + n]) + Place(cf, n) == old(Val(a[at..at + n])) + old(Val(b[..n])) + cin
    ensures forall k | 0 <= k < at || at + n <= k < dst.Length :: dst[k] == old(dst[k])
  {
    hide Val, Place;
    ghost var s, r := a[at..at + n], b[..n];
    cf := cin;
    NothingYet(dst, at, s, cin);
    NothingYet(dst, at, r, cin);
    for i := 0 to n
      invariant cf <= 1
      invariant Val(dst[at..at + i]) + Place(cf, i) == Val(s[..i]) + Val(r[..i]) + cin
      invariant forall k | 0 <= k < at || at + i <= k < dst.Length :: dst[k] == old(dst[k])
    {
      cf := PutSum(dst, a, at, b, i, cf, s, r, cin);
    }
    assert s[..n] == s && r[..n] == r;
  }

  /** `addc_n`: dst may be either operand. */
  method AddcN(dst: array<Limb>, a: array<Limb>, b: array<Limb>, n: nat, cin: nat) returns (cf: nat)
    requires n <= dst.Length && n <= a.Length && n <= b.Length && cin <= 1
    modifies dst
    ensures cf <= 1
    ensures Val(dst[..n]) + Place(cf, n) == old(Val(a[..n])) + old(Val(b[..n])) + cin
    ensures forall k | n <= k < dst.Length :: dst[k] == old(dst[k])
  {
    assert a[0..n] == a[..n];
    cf := AddcAt(dst, a, 0, b, n, cin);
    assert dst[0..n] == dst[..n];
  }

  /** One limb of a difference, with the carry into it, which is not positive. */
  method PutDifference(dst: array<Limb>, a: array<Limb>, at: nat, b: array<Limb>, i: nat, c: int,
          ghost s: seq<Limb>, ghost r: seq<Limb>, ghost cin: int)
    returns (next: int)
    requires at + i < dst.Length && at + i < a.Length && i < b.Length && i < |s| == |r|
    requires a[at + i] == s[i] && b[i] == r[i]
    requires Val(dst[at..at + i]) + Place(c, i) == Val(s[..i]) - Val(r[..i]) + cin
    modifies dst
    ensures Val(dst[at..at + i + 1]) + Place(next, i + 1) == Val(s[..i + 1]) - Val(r[..i + 1]) + cin
    ensures next * BASE <= s[i] as int - r[i] + c < next * BASE + BASE
    ensures forall k | 0 <= k < dst.Length && k != at + i :: dst[k] == old(dst[k])
  {
    hide Val, Place;
    var t := a[at + i] as int - b[i];
    DifferenceStep(s, r, t, i);
    next := PutLimb(dst, at, i, t, c, Val(s[..i + 1]) - Val(r[..i + 1]) + cin);
  }

  /** `subc_n` from place `at` of dst and a on; dst may be a, and at place 0 it may be b. */
  method SubcAt(dst: array<Limb>, a: array<Limb>, at: nat, b: array<Limb>, n: nat, cin: nat) returns (cf: nat)
    requires at + n <= dst.Length && at + n <= a.Length && n <= b.Length && cin <= 1 && (dst == b ==> at == 0)
    modifies dst
    ensures cf <= 1
    ensures Val(dst[at..at + n]) - Place(cf, n) == old(Val(a[at..at + n])) - old(Val(b[..n])) - cin
    ensures forall k | 0 <= k < at || at + n <= k < dst.Length :: dst[k] == old(dst[k])
  {
    hide Val, Place;
    ghost var s, r := a[at..at + n], b[..n];
    var c: int := 0 - cin;
    NothingYet(dst, at, s, 0 - cin);
    NothingYet(dst, at, r, 0 - cin);
    for i := 0 to n
      invariant -1 <= c <= 0
      invariant Val(dst[at..at + i]) + Place(c, i) == Val(s[..i]) - Val(r[..i]) - cin
      invariant forall k | 0 <= k < at || at + i <= k < dst.Length :: dst[k] == old(dst[k])
    {
      c := PutDifference(dst, a, at, b, i, c, s, r, 0 - cin);
    }
    assert s[..n] == s && r[..n] == r;
    PlaceNegate(c, n);
    cf := 0 - c;
  }

  /** `subc_n`: dst may be either operand. */
  method SubcN(dst: array<Limb>, a: array<Limb>, b: array<Limb>, n: nat, cin: nat) returns (cf: nat)
    requires n <= dst.Length && n <= a.Length && n <= b.Length && cin <= 1
    modifies dst
    ensures cf <= 1
    ensures Val(dst[..n]) - Place(cf, n) == old(Val(a[..n])) - old(Val(b[..n])) - cin
    ensures forall k | n <= k < dst.Length :: dst[k] == old(dst[k])
  {
    assert a[0..n] == a[..n];
    cf := SubcAt(dst, a, 0, b, n, cin);
    assert dst[0..n] == dst[..n];
  }

  // Products by one limb.

  lemma LimbProduct(x: Limb, m: Limb)
    ensures 0 <= x * m <= (BASE - 1) * (BASE - 1)
  {
    MulLessEq(x, m, BASE - 1);
    MulLessEq(BASE - 1, x, BASE - 1);
  }

  lemma NegateProduct(x: int, m: int)
    ensures x * (0 - m) == 0 - x * m
  {}

  /** `mul_1` */
  method Mul1(dst: array<Limb>, src: array<Limb>, at: nat, n: nat, ml: Limb) returns (cf: Limb)
    requires at + n <= dst.Length && at + n <= src.Length
    modifies dst
    ensures Val(dst[at..at + n]) + Place(cf, n) == old(Val(src[at..at + n])) * ml
    ensures forall k | 0 <= k < at || at + n <= k < dst.Length :: dst[k] == old(dst[k])
  {
    hide Val, Place;
    ghost var w := src[at..at + n];
    cf := 0;
    ghost var sum: int := 0;
    NothingYet(dst, at, w, 0);
    for i := 0 to n
      invariant Val(dst[at..at + i]) + Place(cf, i) == sum == Val(w[..i]) * ml
      invariant forall k | 0 <= k < at || at + i <= k < dst.Length :: dst[k] == old(dst[k])
    {
      assert src[at + i] == w[i];
      LimbProduct(src[at + i], ml);
      var t := src[at + i] * ml;
      ProductStep(w, ml, t, i);
      sum := Val(w[..i + 1]) * ml;
      cf := PutLimb(dst, at, i, t, cf, sum);
    }
    assert w[..n] == w;
  }

  /** One limb of the sum of a number and a multiple of another, with the carry into it. */
  method PutMultiple(dst: array<Limb>, at: nat, i: nat, x: Limb, y: Limb, m: int, c: int,
          ghost r: seq<Limb>, ghost w: seq<Limb>)
    returns (next: int)
    requires at + i < dst.Length && i < |r| == |w| && x == r[i] && y == w[i]
    requires Val(dst[at..at + i]) + Place(c, i) == Val(r[..i]) + Val(w[..i]) * m
    modifies dst
    ensures Val(dst[at..at + i + 1]) + Place(next, i + 1) == Val(r[..i + 1]) + Val(w[..i + 1]) * m
    ensures next * BASE <= x + y * m + c < next * BASE + BASE
    ensures forall k | 0 <= k < dst.Length && k != at + i :: dst[k] == old(dst[k])
  {
    hide Val, Place;
    var t := x + y * m;
    RowStep(r, w, m, t, i);
    next := PutLimb(dst, at, i, t, c, Val(r[..i + 1]) + Val(w[..i + 1]) * m);
  }

  /** `addmul_1`, into the limbs from `at` on. */
  method AddMul1(dst: array<Limb>, at: nat, src: array<Limb>, n: nat, ml: Limb) returns (cf: Limb)
    requires at + n <= dst.Length && n <= src.Length && (dst == src ==> at == 0)
    modifies dst
    ensures Val(dst[at..at + n]) + Place(cf, n) == old(Val(dst[at..at + n])) + old(Val(src[..n])) * ml
    ensures forall k | 0 <= k < at || at + n <= k < dst.Length :: dst[k] == old(dst[k])
  {
    hide Val, Place;
    ghost var w, r := src[..n], dst[at..at + n];
    cf := 0;
    NothingYet(dst, at, r, 0);
    NothingYet(dst, at, w, 0);
    for i := 0 to n
      invariant Val(dst[at..at + i]) + Place(cf, i) == Val(r[..i]) + Val(w[..i]) * ml
      invariant forall k | 0 <= k < at || at + i <= k < dst.Length :: dst[k] == old(dst[k])
    {
      LimbProduct(src[i], ml);
      cf := PutMultiple(dst, at, i, dst[at + i], src[i], ml, cf, r, w);
    }
    assert w[..n] == w && r[..n] == r;
  }

  /** `submul_1`, from the limbs from `at` on. */
  method SubMulAt(dst: array<Limb>, at: nat, src: array<Limb>, n: nat, ml: Limb) returns (cf: Limb)
    requires at + n <= dst.Length && n <= src.Length && (dst == src ==> at == 0)
    modifies dst
    ensures Val(dst[at..at + n]) - Place(cf, n) == old(Val(dst[at..at + n])) - old(Val(src[..n])) * ml
    ensures forall k | 0 <= k < at || at + n <= k < dst.Length :: dst[k] == old(dst[k])
  {
    hide Val, Place;
    ghost var w, r := src[..n], dst[at..at + n];
    var m: int := 0 - ml;
    var c: int := 0;
    NothingYet(dst, at, r, 0);
    NothingYet(dst, at, w, 0);
    for i := 0 to n
      invariant c <= 0 < c + BASE
      invariant Val(dst[at..at + i]) + Place(c, i) == Val(r[..i]) + Val(w[..i]) * m
      invariant forall k | 0 <= k < at || at + i <= k < dst.Length :: dst[k] == old(dst[k])
    {
      LimbProduct(src[i], ml);
      NegateProduct(src[i], ml);
      c := PutMultiple(dst, at, i, dst[at + i], src[i], m, c, r, w);
    }
    assert w[..n] == w && r[..n] == r;
    NegateProduct(Val(w), ml);
    PlaceNegate(c, n);
    cf := 0 - c;
  }

  /** `submul_1` */
  method SubMul1(dst: array<Limb>, src: array<Limb>, n: nat, ml: Limb) returns (cf: Limb)
    requires n <= dst.Length && n <= src.Length
    modifies dst
    ensures Val(dst[..n]) - Place(cf, n) == old(Val(dst[..n])) - old(Val(src[..n])) * ml
    ensures forall k | n <= k < dst.Length :: dst[k] == old(dst[k])
  {
    assert dst[0..n] == dst[..n];
    cf := SubMulAt(dst, 0, src, n, ml);
    assert dst[0..n] == dst[..n];
  }

  // Sums and differences of two lengths.

  lemma ValRange(a: array<Limb>, m: nat, n: nat)
    requires m <= n <= a.Length
    ensures Val(a[..n]) == Val(a[..m]) + Place(Val(a[m..n]), m)
  {
    assert a[..n] == a[..m] + a[m..n];
    AppendPlace(a[..m], a[m..n]);
  }

  /** A sum done in two parts, the carry c of the first going into the second. */
  lemma JoinCarry(m: nat, n: nat, low: int, c: int, k: int, high: int, next: int, t: int)
    requires m <= n && low + Place(c, m) == k && high + Place(next, n - m) == t + c
    ensures (low + Place(high, m)) + Place(next, n) == k + Place(t, m)
  {
    PlaceAdd(high, Place(next, n - m), m);
    PlaceAdd(t, c, m);
    PlacePlace(next, n - m, m);
  }

  lemma JoinBorrow(m: nat, n: nat, low: int, c: int, k: int, high: int, next: int, t: int)
    requires m <= n && low - Place(c, m) == k && high - Place(next, n - m) == t - c
    ensures (low + Place(high, m)) - Place(next, n) == k + Place(t, m)
  {
    PlaceNegate(c, m);
    PlaceNegate(next, n - m);
    PlaceNegate(next, n);
    var c', next': int := 0 - c, 0 - next;
    JoinCarry(m, n, low, c', k, high, next', t);
  }

  /** The limbs from m on, the carry of the limbs below added. */
  method CarryUp(dst: array<Limb>, a: array<Limb>, m: nat, n: nat, c: nat, ghost k: int) returns (cf: nat)
    requires m < n <= dst.Length && n <= a.Length && c <= 1 && Val(dst[..m]) + Place(c, m) == k
    modifies dst
    ensures cf <= 1
    ensures Val(dst[..n]) + Place(cf, n) == k + Place(old(Val(a[m..n])), m)
    ensures forall k | n <= k < dst.Length :: dst[k] == old(dst[k])
  {
    hide Val, Place;
    ghost var v, t := dst[..m], Val(a[m..n]);
    cf := Addc1(dst, a, m, n - m, 0, c);
    assert dst[..m] == v;
    ValRange(dst, m, n);
    JoinCarry(m, n, Val(v), c, k, Val(dst[m..n]), cf, t);
  }

  method BorrowUp(dst: array<Limb>, a: array<Limb>, m: nat, n: nat, c: nat, ghost k: int) returns (cf: nat)
    requires m < n <= dst.Length && n <= a.Length && c <= 1 && Val(dst[..m]) - Place(c, m) == k
    modifies dst
    ensures cf <= 1
    ensures Val(dst[..n]) - Place(cf, n) == k + Place(old(Val(a[m..n])), m)
    ensures forall k | n <= k < dst.Length :: dst[k] == old(dst[k])
  {
    hide Val, Place;
    ghost var v, t := dst[..m], Val(a[m..n]);
    cf := Subc1(dst, a, m, n - m, 0, c);
    assert dst[..m] == v;
    ValRange(dst, m, n);
    JoinBorrow(m, n, Val(v), c, k, Val(dst[m..n]), cf, t);
  }

  /** `addc_s` */
  method AddcS(dst: array<Limb>, a: array<Limb>, n: nat, b: array<Limb>, m: nat, cin: nat) returns (cf: nat)
    requires 1 <= m <= n <= dst.Length && n <= a.Length && m <= b.Length && cin <= 1
    modifies dst
    ensures cf <= 1
    ensures Val(dst[..n]) + Place(cf, n) == old(Val(a[..n])) + old(Val(b[..m])) + cin
    ensures forall k | n <= k < dst.Length :: dst[k] == old(dst[k])
  {
    hide Val, Place;
    ghost var high, x: int, y: int := a[m..n], Val(a[..m]), Val(b[..m]);
    ValRange(a, m, n);
    cf := AddcN(dst, a, b, m, cin);
    if n != m {
      assert a[m..n] == high;
      cf := CarryUp(dst, a, m, n, cf, x + y + cin);
    }
  }

  /** `subc_s` */
  method SubcS(dst: array<Limb>, a: array<Limb>, n: nat, b: array<Limb>, m: nat, cin: nat) returns (cf: nat)
    requires 1 <= m <= n <= dst.Length && n <= a.Length && m <= b.Length && cin <= 1
    modifies dst
    ensures cf <= 1
    ensures Val(dst[..n]) - Place(cf, n) == old(Val(a[..n])) - old(Val(b[..m])) - cin
    ensures forall k | n <= k < dst.Length :: dst[k] == old(dst[k])
  {
    hide Val, Place;
    ghost var high, x: int, y: int := a[m..n], Val(a[..m]), Val(b[..m]);
    ValRange(a, m, n);
    cf := SubcN(dst, a, b, m, cin);
    if n != m {
      assert a[m..n] == high;
      cf := BorrowUp(dst, a, m, n, cf, x - y - cin);
    }
  }

  // Products of many limbs.

  method StoreTop(dst: array<Limb>, i: nat, x: Limb)
    requires i < dst.Length
    modifies dst
    ensures dst[i] == x && Val(dst[..i + 1]) == old(Val(dst[..i])) + Place(x, i)
    ensures forall k | 0 <= k < dst.Length && k != i :: dst[k] == old(dst[k])
  {
    ghost var low := dst[..i];
    dst[i] := x;
    assert dst[..i + 1] == low + [x];
    ValSnoc(low, x);
  }

  /** `addmul_1` on the limbs from i on, with the effect on the whole number. */
  method AddMulAt(dst: array<Limb>, i: nat, a: array<Limb>, n: nat, x: Limb) returns (cf: Limb)
    requires i + n <= dst.Length && n <= a.Length && dst != a
    modifies dst
    ensures Val(dst[..i + n]) + Place(cf, i + n) == old(Val(dst[..i + n])) + Place(Val(a[..n]) * x, i)
    ensures forall k | i + n <= k < dst.Length :: dst[k] == old(dst[k])
  {
    hide Val, Place;
    ghost var low, mid := dst[..i], Val(dst[i..i + n]);
    ValRange(dst, i, i + n);
    cf := AddMul1(dst, i, a, n, x);
    assert dst[..i] == low;
    ValRange(dst, i, i + n);
    RowValue(Val(dst[i..i + n]), cf, n, i, mid, Val(a[..n]) * x);
  }

  /** One row of the schoolbook product: a times the limb x, added i places up. */
  method MulRow(dst: array<Limb>, i: nat, a: array<Limb>, n: nat, x: Limb)
    requires i + n < dst.Length && n <= a.Length && dst != a
    modifies dst
    ensures Val(dst[..i + n + 1]) == old(Val(dst[..i + n])) + Place(Val(a[..n]) * x, i)
    ensures forall k | i + n < k < dst.Length :: dst[k] == old(dst[k])
  {
    hide Val, Place;
    var cf := AddMulAt(dst, i, a, n, x);
    StoreTop(dst, i + n, cf);
  }

  lemma RowValue(v: int, cf: int, n: nat, i: nat, mid: int, t: int)
    requires v + Place(cf, n) == mid + t
    ensures Place(v, i) + Place(cf, i + n) == Place(mid, i) + Place(t, i)
  {
    PlaceAdd(v, Place(cf, n), i);
    PlacePlace(cf, n, i);
    PlaceAdd(mid, t, i);
  }

  lemma TimesPlace(v: int, x: int, i: nat)
    ensures v * Place(x, i) == Place(v * x, i)
  {
    PlaceIs(x, i);
    PlaceIs(v * x, i);
    MulAssoc(v, x, Pow(BASE, i));
  }

  lemma MoreLimbs(v: int, b: array<Limb>, i: nat)
    requires i < b.Length
    ensures v * Val(b[..i + 1]) == v * Val(b[..i]) + Place(v * b[i], i)
  {
    assert b[..i + 1] == b[..i] + [b[i]];
    ValSnoc(b[..i], b[i]);
    TimesPlace(v, b[i], i);
    Distribute(v, Val(b[..i]), Place(b[i], i));
  }

  lemma FirstLimb(v: int, b: array<Limb>)
    requires b.Length >= 1
    ensures v * Val(b[..1]) == v * b[0]
  {
    assert b[..1] == [] + [b[0]];
    ValSnoc([], b[0]);
  }

  /** `mul_s`: dst is neither operand. */
  method MulS(dst: array<Limb>, a: array<Limb>, n: nat, b: array<Limb>, m: nat)
    requires 1 <= m <= n <= a.Length && m <= b.Length && n + m <= dst.Length && dst != a && dst != b
    modifies dst
    ensures Val(dst[..n + m]) == Val(a[..n]) * Val(b[..m])
  {
    hide Val, Place;
    ghost var v: int := Val(a[..n]);
    var cf := Mul1(dst, a, 0, n, b[0]);
    assert a[0..n] == a[..n] && dst[0..n] == dst[..n];
    StoreTop(dst, n, cf);
    FirstLimb(v, b);
    assert dst[..1 + n] == dst[..n + 1];
    var i := 1;
    while i < m
      invariant 1 <= i <= m && Val(dst[..i + n]) == v * Val(b[..i])
    {
      MulRow(dst, i, a, n, b[i]);
      MoreLimbs(v, b, i);
      i := i + 1;
    }
  }

  /** `sqr` */
  method Sqr(dst: array<Limb>, a: array<Limb>, n: nat)
    requires 1 <= n <= a.Length && n + n <= dst.Length && dst != a
    modifies dst
    ensures Val(dst[..n + n]) == Val(a[..n]) * Val(a[..n])
  {
    MulS(dst, a, n, a, n);
  }

  lemma NothingAbove(w: nat, n: nat)
    ensures if w > 0 then Place(w, n) >= Pow(BASE, n) else Place(w, n) == 0
  {
    Commuted(w, n);
    if w > 0 { MulLessEq(Pow(BASE, n), 1, w); }
  }

  // Scans, negation, comparison.

  /** `normalize`: the length without zeros on top. */
  method Normalize(a: array<Limb>, n: nat) returns (m: nat)
    requires n <= a.Length
    ensures m <= n && Normal(a[..m]) && Val(a[..m]) == Val(a[..n])
  {
    m := n;
    while m > 0 && a[m - 1] == 0
      invariant m <= n && Val(a[..m]) == Val(a[..n])
    {
      assert a[..m][..m - 1] == a[..m - 1];
      PlaceIs(0, m - 1);
      m := m - 1;
    }
  }

  /** `bi_negate_n`: whether src is zero; otherwise dst is its complement to BASE^n. */
  method NegateN(dst: array<Limb>, src: array<Limb>, n: nat) returns (zero: bool)
    requires n <= dst.Length && n <= src.Length
    modifies dst
    ensures zero <==> old(Val(src[..n])) == 0
    ensures Val(dst[..n]) == if zero then 0 else Pow(BASE, n) - old(Val(src[..n]))
    ensures forall k | n <= k < dst.Length :: dst[k] == old(dst[k])
  {
    hide Val, Place;
    ghost var w := src[..n];
    var i := 0;
    NothingYet(dst, 0, w, 0);
    while i < n && src[i] == 0
      invariant i <= n && Val(w[..i]) == 0 && Val(dst[..i]) == 0
      invariant forall k | i <= k < dst.Length :: dst[k] == old(dst[k])
    {
      assert src[i] == w[i];
      PrefixPlace(w, i);
      PlaceIs(0, i);
      StoreTop(dst, i, 0);
      i := i + 1;
    }
    if i == n {
      assert w[..n] == w;
      return true;
    }
    zero := false;
    Complement(dst, src, i, n, w);
  }

  /** The lowest limb that is not zero is negated, those above are inverted. */
  method Complement(dst: array<Limb>, src: array<Limb>, first: nat, n: nat, ghost w: seq<Limb>)
    requires first < n <= dst.Length && n <= src.Length && src[first] != 0
    requires |w| == n && (forall k | first <= k < n :: w[k] == src[k])
    requires Val(w[..first]) == 0 && Val(dst[..first]) == 0
    modifies dst
    ensures Val(w) != 0 && Val(dst[..n]) == Pow(BASE, n) - Val(w)
    ensures forall k | n <= k < dst.Length :: dst[k] == old(dst[k])
  {
    hide Val, Place;
    var x := BASE - src[first];
    InvertFirst(w, x, first);
    StoreTop(dst, first, x);
    var i := first + 1;
    while i < n
      invariant first < i <= n && Val(dst[..i]) + Val(w[..i]) == Place(1, i)
      invariant forall k | i <= k < dst.Length :: dst[k] == old(dst[k])
    {
      x := BASE - 1 - src[i];
      InvertNext(w, x, i);
      StoreTop(dst, i, x);
      i := i + 1;
    }
    assert w[..n] == w;
    PlaceIs(1, n);
    ValBound(dst[..n]);
  }

  lemma InvertFirst(w: seq<Limb>, x: Limb, i: nat)
    requires i < |w| && Val(w[..i]) == 0 && x + w[i] == BASE
    ensures Place(x, i) + Val(w[..i + 1]) == Place(1, i + 1)
  {
    PrefixPlace(w, i);
    PlaceAdd(x, w[i], i);
    PlaceUp(1, i);
  }

  lemma InvertNext(w: seq<Limb>, x: Limb, i: nat)
    requires i < |w| && x + w[i] == BASE - 1
    ensures Place(x, i) + Val(w[..i + 1]) + Place(1, i) == Val(w[..i]) + Place(1, i + 1)
  {
    PrefixPlace(w, i);
    PlaceAdd(x, w[i], i);
    PlaceAdd(BASE - 1, 1, i);
    PlaceUp(1, i);
  }
}
