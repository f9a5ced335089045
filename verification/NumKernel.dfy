/** The limb loops of bc/num.c: carry, borrow, one-limb multiply and divide, and comparison, over limb
    vectors in base 10^9 or 10^4. */
module NumKernel {
  import opened Positional

  // which of the two configurations of num.h is compiled
  const WIDE: bool
  const BASE_DIGS: nat := if WIDE then 9 else 4
  const BASE_POW: nat := Pow(10, BASE_DIGS)

  lemma BasePow()
    ensures BASE_POW == if WIDE then 1_000_000_000 else 10_000
  {
    assert Pow(10, 4) == 10_000;
    assert Pow(10, 5) == 100_000;
    PowAdd(10, 4, 5);
  }

  /** Limbs in range. */
  predicate Limbs(s: seq<int>) {
    Digits(s, BASE_POW)
  }

  function V(s: seq<int>): int {
    Val(s, BASE_POW)
  }

  function P(n: nat): nat {
    Pow(BASE_POW, n)
  }

  lemma PPositive(n: nat)
    ensures P(n) > 0 && P(n + 1) == BASE_POW * P(n) && BASE_POW >= 10_000
  {
    BasePow();
  }

  function AddDigits(x: int, y: int, carry: int): (int, int) {
    var s := x + y + carry;
    if s >= BASE_POW then (s - BASE_POW, 1) else (s, 0)
  }

  function SubDigits(x: int, y: int, carry: int): (int, int) {
    var d := x - (y + carry);
    if d < 0 then (d + BASE_POW, 1) else (d, 0)
  }

  lemma EmptyValue()
    ensures V([]) == 0 && P(0) == 1
  {
  }

  /** Overwriting one limb extends the finished part. */
  lemma StepLimbs(r: seq<int>, k: nat, d: int)
    requires k < |r| && Limbs(r) && 0 <= d < BASE_POW
    ensures Limbs(r[k := d]) && r[k := d][..k + 1] == r[..k] + [d] && r[k := d][k + 1..] == r[k + 1..]
  {
  }

  /** One column of a carry chain at weight p; the next column weighs b * p. `sum` is the exact value of
      the columns so far. */
  lemma Column(b: int, p: int, lo: int, c: int, sum: int, d: int, c': int, x: int)
    requires lo + c * p == sum && d + c' * b == x + c
    ensures lo + p * d + c' * (b * p) == sum + p * x
  {
    assert (d + c' * b) * p == (x + c) * p;
  }

  lemma CarryStep(lo: seq<int>, c: int, sum: int, d: int, c': int, x: int)
    requires V(lo) + c * P(|lo|) == sum && d + c' * BASE_POW == x + c
    ensures V(lo + [d]) + c' * P(|lo| + 1) == sum + P(|lo|) * x
  {
    hide Val, Pow;
    ValSnoc(lo, d, BASE_POW);
    PPositive(|lo|);
    Column(BASE_POW, P(|lo|), V(lo), c, sum, d, c', x);
  }

  /** The digits still to come cannot take the sum past the end, so the carry stops before it. */
  lemma CarryStops(lo: seq<int>, c: int, n: nat, sum: int)
    requires |lo| <= n && Limbs(lo) && 0 <= c <= 1 && V(lo) + c * P(|lo|) <= sum < P(n)
    ensures c == 1 ==> |lo| < n
  {
    PPositive(0);
    ValBound(lo, BASE_POW);
  }

  /** A borrow chain that ends above zero stops before the end. */
  lemma BorrowStops(lo: seq<int>, c: int, n: nat, rest: int, sum: int)
    requires |lo| <= n && Limbs(lo) && 0 <= c <= 1
    requires V(lo) - c * P(|lo|) + rest == sum && 0 <= sum && (|lo| == n ==> rest == 0)
    ensures c == 1 ==> |lo| < n
  {
    PPositive(0);
    ValBound(lo, BASE_POW);
  }

  // ---------------------------------------------------------- add, subtract

  /** The rest of a chain: carry (or borrow, c negative) into a[k..]. */
  lemma RunStep(lo: seq<int>, c: int, rest: seq<int>, d: int, c': int, sum: int)
    requires rest != [] && d + c' * BASE_POW == rest[0] + c
    requires V(lo) + c * P(|lo|) + P(|lo|) * V(rest) == sum
    ensures V(lo + [d]) + c' * P(|lo| + 1) + P(|lo| + 1) * V(rest[1..]) == sum
  {
    var p, v := P(|lo|), V(rest[1..]);
    CarryStep(lo, c, V(lo) + c * p, d, c', rest[0]);
    assert V(rest) == rest[0] + BASE_POW * v && P(|lo| + 1) == BASE_POW * p;
    hide Val, Pow;
    MulDistrib(p, rest[0], BASE_POW * v);
    MulAssoc(p, BASE_POW, v);
  }

  method RunCarry(a: seq<int>, k: nat, c: int) returns (r: seq<int>)
    requires k <= |a| && 0 <= c <= 1 && Limbs(a)
    requires V(a[..k]) + c * P(k) + P(k) * V(a[k..]) < P(|a|)
    ensures |r| == |a| && Limbs(r)
    ensures V(r) == V(a[..k]) + c * P(k) + P(k) * V(a[k..])
  {
    hide Val, Pow;
    ghost var sum := V(a[..k]) + c * P(k) + P(k) * V(a[k..]);
    var i, carry := k, c;
    r := a;
    while carry == 1
      invariant k <= i <= |r| == |a| && 0 <= carry <= 1 && Limbs(r)
      invariant V(r[..i]) + carry * P(i) + P(i) * V(r[i..]) == sum
      decreases |r| - i, carry
    {
      RestPositive(r[i..], i);
      CarryStops(r[..i], carry, |r|, sum);
      var (d, c') := AddDigits(r[i], 0, carry);
      RunStep(r[..i], carry, r[i..], d, c', sum);
      StepLimbs(r, i, d);
      assert r[i..][1..] == r[i + 1..];
      r := r[i := d];
      carry := c';
      i := i + 1;
    }
    ValSplit(r, i, BASE_POW);
  }

  lemma RestPositive(rest: seq<int>, i: nat)
    requires Limbs(rest)
    ensures P(i) * V(rest) >= 0 && (rest == [] ==> P(i) * V(rest) == 0)
  {
    PPositive(i);
    ValBound(rest, BASE_POW);
    MulMonotone(0, V(rest), P(i));
  }

  /** A column of `a + B^off * b` below the end of b. */
  lemma AddColumn(al: int, bl: int, x: int, y: int, off: nat, i: nat)
    ensures al + P(off) * bl + P(off + i) * (x + y) == (al + P(off + i) * x) + P(off) * (bl + P(i) * y)
  {
    PowAdd(BASE_POW, off, i);
    hide Pow;
    MulDistrib(P(off + i), x, y);
    MulDistrib(P(off), bl, P(i) * y);
    MulAssoc(P(off), P(i), y);
  }

  /** bc_num_addArrays on a[off..]: the carry runs on as far as it must and never leaves a. */
  method AddArrays(a: seq<int>, off: nat, b: seq<int>) returns (r: seq<int>)
    requires off + |b| <= |a| && Limbs(a) && Limbs(b)
    requires V(a) + P(off) * V(b) < P(|a|)
    ensures |r| == |a| && Limbs(r) && V(r) == V(a) + P(off) * V(b)
  {
    hide Val, Pow;
    r := a;
    var i := 0;
    var carry := 0;
    EmptyValue();
    assert P(off) * V(b[..0]) == 0;
    while i < |b|
      invariant i <= |b| && 0 <= carry <= 1 && |r| == |a| && Limbs(r)
      invariant r[off + i..] == a[off + i..]
      invariant V(r[..off + i]) + carry * P(off + i) == V(a[..off + i]) + P(off) * V(b[..i])
    {
      var k := off + i;
      var (d, c) := AddDigits(r[k], b[i], carry);
      ValPrefix(a, k, BASE_POW);
      ValPrefix(b, i, BASE_POW);
      CarryStep(r[..k], carry, V(a[..k]) + P(off) * V(b[..i]), d, c, a[k] + b[i]);
      AddColumn(V(a[..k]), V(b[..i]), a[k], b[i], off, i);
      StepLimbs(r, k, d);
      r := r[k := d];
      carry := c;
      i := i + 1;
    }
    assert b[..i] == b;
    ValSplit(a, off + i, BASE_POW);
    r := RunCarry(r, off + i, carry);
  }

  method RunBorrow(a: seq<int>, k: nat, c: int) returns (r: seq<int>)
    requires k <= |a| && 0 <= c <= 1 && Limbs(a)
    requires V(a[..k]) - c * P(k) + P(k) * V(a[k..]) >= 0
    ensures |r| == |a| && Limbs(r)
    ensures V(r) == V(a[..k]) - c * P(k) + P(k) * V(a[k..])
  {
    hide Val, Pow;
    ghost var sum := V(a[..k]) - c * P(k) + P(k) * V(a[k..]);
    var i, carry := k, c;
    r := a;
    while carry == 1
      invariant k <= i <= |r| == |a| && 0 <= carry <= 1 && Limbs(r)
      invariant V(r[..i]) - carry * P(i) + P(i) * V(r[i..]) == sum
      decreases |r| - i, carry
    {
      RestPositive(r[i..], i);
      BorrowStops(r[..i], carry, |r|, P(i) * V(r[i..]), sum);
      var (d, c') := SubDigits(r[i], 0, carry);
      RunStep(r[..i], -carry, r[i..], d, -c', sum);
      StepLimbs(r, i, d);
      assert r[i..][1..] == r[i + 1..];
      r := r[i := d];
      carry := c';
      i := i + 1;
    }
    ValSplit(r, i, BASE_POW);
  }

  /** bc_num_subArrays on a[off..]: a must be large enough, and then the borrow never leaves it. */
  method SubArrays(a: seq<int>, off: nat, b: seq<int>) returns (r: seq<int>)
    requires off + |b| <= |a| && Limbs(a) && Limbs(b)
    requires V(a) >= P(off) * V(b)
    ensures |r| == |a| && Limbs(r) && V(r) == V(a) - P(off) * V(b)
  {
    hide Val, Pow;
    r := a;
    var i := 0;
    var carry := 0;
    EmptyValue();
    assert P(off) * V(b[..0]) == 0;
    while i < |b|
      invariant i <= |b| && 0 <= carry <= 1 && |r| == |a| && Limbs(r)
      invariant r[off + i..] == a[off + i..]
      invariant V(r[..off + i]) - carry * P(off + i) == V(a[..off + i]) - P(off) * V(b[..i])
    {
      var k := off + i;
      var (d, c) := SubDigits(r[k], b[i], carry);
      ValPrefix(a, k, BASE_POW);
      ValPrefix(b, i, BASE_POW);
      CarryStep(r[..k], -carry, V(a[..k]) - P(off) * V(b[..i]), d, -c, a[k] - b[i]);
      AddColumn(V(a[..k]), -V(b[..i]), a[k], -b[i], off, i);
      NegateProduct(P(off), V(b[..i]), P(i), b[i]);
      StepLimbs(r, k, d);
      r := r[k := d];
      carry := c;
      i := i + 1;
    }
    assert b[..i] == b;
    ValSplit(a, off + i, BASE_POW);
    r := RunBorrow(r, off + i, carry);
  }

  lemma NegateProduct(p: int, v: int, q: int, y: int)
    ensures p * -v == -(p * v) && p * (-v + q * -y) == -(p * (v + q * y))
  {
  }

  // ---------------------------------------------- one limb times, divided by

  /** bc_num_mulArray: times a factor of at most the base. */
  method MulArray(a: seq<int>, m: nat) returns (c: seq<int>)
    requires Limbs(a) && m <= BASE_POW
    ensures Limbs(c) && |a| <= |c| <= |a| + 1 && V(c) == V(a) * m
  {
    hide Val, Pow, SplitLimb;
    c := [];
    var i := 0;
    var carry := 0;
    EmptyValue();
    PPositive(0);
    assert a[..0] == [];
    while i < |a|
      invariant i <= |a| && |c| == i && Limbs(c) && 0 <= carry < BASE_POW
      invariant V(c) + carry * P(i) == V(a[..i]) * m
    {
      MulBounds(a[i], m, carry, BASE_POW);
      var n := a[i] * m + carry;
      var (d, c') := SplitLimb(n);
      SplitLimbIs(n);
      CarryStep(c, carry, V(a[..i]) * m, d, c', a[i] * m);
      ValPrefix(a, i, BASE_POW);
      TimesPrefix(V(a[..i]), P(i), a[i], m);
      c := c + [d];
      carry := c';
      i := i + 1;
    }
    assert a[..i] == a;
    ValSnoc(c, carry, BASE_POW);
    if carry != 0 {
      c := c + [carry];
    }
  }

  lemma MulBounds(x: int, m: int, carry: int, b: int)
    requires 0 <= x < b && 0 <= m <= b && 0 <= carry < b
    ensures 0 <= x * m + carry < b * b
  {
    MulMonotone(x, b - 1, m);
    MulMonotone(m, b, b - 1);
    MulMonotone(0, x, m);
    assert (b - 1) * b == b * b - b;
  }

  /** The limb that stays and the carry. */
  function SplitLimb(n: nat): (int, int) {
    PPositive(0);
    (n % BASE_POW, n / BASE_POW)
  }

  lemma SplitLimbIs(n: nat)
    ensures var (d, c) := SplitLimb(n); n == d + c * BASE_POW && 0 <= d < BASE_POW && 0 <= c
    ensures n < BASE_POW * BASE_POW ==> SplitLimb(n).1 < BASE_POW
  {
    PPositive(0);
    if n < BASE_POW * BASE_POW { QuotientBound(n, BASE_POW, BASE_POW); }
  }

  /** A quotient is below q when the dividend is below b * q. */
  lemma QuotientBound(n: int, b: int, q: int)
    requires b > 0 && 0 <= n < b * q
    ensures n == n % b + n / b * b && 0 <= n / b < q
  {
    if n / b >= q {
      MulMonotone(q, n / b, b);
    }
  }

  lemma TimesPrefix(v: int, p: int, x: int, m: int)
    ensures v * m + p * (x * m) == (v + p * x) * m
  {
    MulAssoc(p, x, m);
  }

  /** bc_num_divArray: quotient and remainder by one limb, from the top down. */
  method DivArray(a: seq<int>, d: nat) returns (c: seq<int>, rem: int)
    requires Limbs(a) && 0 < d <= BASE_POW
    ensures |c| == |a| && Limbs(c) && 0 <= rem < d && V(a) == V(c) * d + rem
  {
    hide Val, Pow;
    c := [];
    rem := 0;
    var i := |a|;
    EmptyValue();
    assert a[i..] == [];
    while i > 0
      invariant i <= |a| && |c| == |a| - i && Limbs(c) && 0 <= rem < d
      invariant V(a[i..]) == V(c) * d + rem
    {
      i := i - 1;
      var n := a[i] + rem * BASE_POW;
      DigitBound(a[i], rem, d, BASE_POW);
      QuotientBound(n, d, BASE_POW);
      DownStep(a, i, c, d, rem, n / d, n % d);
      c := [n / d] + c;
      rem := n % d;
    }
    assert a[0..] == a;
  }

  lemma DownStep(a: seq<int>, i: nat, c: seq<int>, d: int, rem: int, q: int, r: int)
    requires i < |a| && V(a[i + 1..]) == V(c) * d + rem
    requires a[i] + rem * BASE_POW == q * d + r
    ensures V(a[i..]) == V([q] + c) * d + r
  {
    assert a[i..][1..] == a[i + 1..] && ([q] + c)[1..] == c;
    DownAlgebra(a[i], V(c), BASE_POW, d, rem, q, r);
  }

  lemma DownAlgebra(x: int, v: int, b: int, d: int, rem: int, q: int, r: int)
    requires x + rem * b == q * d + r
    ensures x + b * (v * d + rem) == (q + b * v) * d + r
  {
    assert b * (v * d + rem) == b * v * d + b * rem;
  }

  // --------------------------------------------------------------- compare

  function Sign(x: int): int {
    if x > 0 then 1 else if x < 0 then -1 else 0
  }

  /** bc_num_compare: one more than the highest differing limb, signed; 0 for equal vectors. */
  method Compare(a: seq<int>, b: seq<int>) returns (r: int)
    requires |a| == |b| && Limbs(a) && Limbs(b)
    ensures Sign(r) == Sign(V(a) - V(b)) && (r == 0 <==> a == b)
  {
    hide Val, Pow;
    var i := |a|;
    while i > 0 && a[i - 1] == b[i - 1]
      invariant 0 <= i <= |a| && a[i..] == b[i..]
    {
      i := i - 1;
    }
    if i == 0 {
      return 0;
    }
    r := if a[i - 1] < b[i - 1] then -i else i;
    HighLimb(a, b, i - 1);
  }

  lemma HighLimb(a: seq<int>, b: seq<int>, k: nat)
    requires k < |a| == |b| && Limbs(a) && Limbs(b) && a[k + 1..] == b[k + 1..]
    ensures a[k] < b[k] ==> V(a) < V(b)
    ensures a[k] > b[k] ==> V(a) > V(b)
  {
    hide Val, Pow;
    PPositive(k);
    ValSplit(a, k + 1, BASE_POW);
    ValSplit(b, k + 1, BASE_POW);
    ValPrefix(a, k, BASE_POW);
    ValPrefix(b, k, BASE_POW);
    ValBound(a[..k], BASE_POW);
    ValBound(b[..k], BASE_POW);
    TopDigit(a[k], b[k], P(k));
    TopDigit(b[k], a[k], P(k));
  }

  lemma TopDigit(x: int, y: int, p: int)
    requires p > 0
    ensures x < y ==> p * x + p <= p * y
  {
    if x < y {
      MulMonotone(x + 1, y, p);
      assert (x + 1) * p == p * x + p;
    }
  }

  // ---------------------------------------------------- shift within a limb

  /** bc_num_shift: divide by 10^dig, which must come out even, moving digits from limb to limb; no
      digit is lost at the low end. */
  method ShiftDigits(a: seq<int>, dig: nat, ghost q: int) returns (r: seq<int>)
    requires Limbs(a) && dig < BASE_DIGS && V(a) == q * Pow(10, dig)
    ensures |r| == |a| && Limbs(r) && V(r) == q
  {
    hide Val, Pow;
    var pow, up := Pow(10, dig), Pow(10, BASE_DIGS - dig);
    PowAdd(10, dig, BASE_DIGS - dig);
    r := [];
    var carry := 0;
    var i := |a|;
    EmptyValue();
    assert a[i..] == [];
    while i > 0
      invariant i <= |a| && |r| == |a| - i && Limbs(r) && 0 <= carry < pow
      invariant V(a[i..]) == V(r) * pow + carry
    {
      i := i - 1;
      var n, temp := a[i], carry * up;
      ShiftStep(n, carry, pow, up, BASE_POW);
      DownStep(a, i, r, pow, carry, n / pow + temp, n % pow);
      r := [n / pow + temp] + r;
      carry := n % pow;
    }
    assert a[0..] == a;
    NoRemainder(q, V(r), carry, pow);
    assert carry == 0;
  }

  lemma ShiftStep(n: int, carry: int, pow: int, up: int, b: int)
    requires pow > 0 && b == pow * up && 0 <= n < b && 0 <= carry < pow
    ensures 0 <= n / pow + carry * up < b
    ensures n + carry * b == (n / pow + carry * up) * pow + n % pow
  {
    QuotientBound(n, pow, up);
    MulMonotone(carry, pow - 1, up);
    MulMonotone(0, carry, up);
    assert carry * (pow * up) == (carry * up) * pow;
    assert (pow - 1) * up == pow * up - up;
  }

  lemma NoRemainder(q: int, q': int, c: int, d: int)
    requires d > 0 && q * d == q' * d + c && 0 <= c < d
    ensures c == 0 && q == q'
  {
    SameQuotient(0, q, c, q', d);
  }

  lemma SetLimb(s: seq<int>, i: nat, d: int)
    requires i < |s|
    ensures V(s[i := d]) == V(s) + P(i) * (d - s[i])
  {
    hide Val, Pow;
    var t := s[i := d];
    ValSplit(s, i + 1, BASE_POW);
    ValSplit(t, i + 1, BASE_POW);
    ValPrefix(s, i, BASE_POW);
    ValPrefix(t, i, BASE_POW);
    assert s[..i] == t[..i] && s[i + 1..] == t[i + 1..];
    MulDistrib(P(i), d, -s[i]);
    assert P(i) * -s[i] == -(P(i) * s[i]);
  }
}
