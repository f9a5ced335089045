/** Modular power: bc_num_modexp. */
module NumModexp {
  import opened Positional
  import opened NumKernel
  import opened Num
  import opened NumAdd
  import opened NumMul
  import opened NumDiv
  import opened NumRem

  function IntPow(x: int, n: nat): int {
    if n == 0 then 1 else x * IntPow(x, n - 1)
  }

  /** Squaring the base halves the exponent. */
  lemma {:induction false} IntPowSquare(x: int, n: nat)
    ensures IntPow(x * x, n) == IntPow(x, 2 * n)
  {
    if n > 0 {
      IntPowSquare(x, n - 1);
      assert IntPow(x, 2 * n) == x * (x * IntPow(x, 2 * (n - 1)));
      MulAssoc(x, x, IntPow(x, 2 * (n - 1)));
    }
  }

  // ------------------------------------------------------------ congruence

  predicate Congruent(x: int, y: int, m: nat)
    requires m > 0
  {
    x % m == y % m
  }

  /** Congruent numbers differ by a multiple. */
  lemma CongruentDivides(x: int, y: int, m: nat)
    requires m > 0 && Congruent(x, y, m)
    ensures (x - y) % m == 0
  {
    var q := x / m - y / m;
    assert x == m * (x / m) + x % m && y == m * (y / m) + y % m;
    assert x - y == m * q by { assert m * q == m * (x / m) - m * (y / m); }
    DivIs(x - y, m, q, 0);
  }

  lemma CongruentBy(x: int, y: int, k: int, m: nat)
    requires m > 0 && x == y + k * m
    ensures Congruent(x, y, m)
  {
    assert y == m * (y / m) + y % m;
    assert x == m * (y / m + k) + y % m;
    SameQuotient(x % m, x / m, y % m, y / m + k, m);
  }

  lemma CongruentProduct(x: int, y: int, x': int, y': int, m: nat)
    requires m > 0 && Congruent(x, x', m) && Congruent(y, y', m)
    ensures Congruent(x * y, x' * y', m)
  {
    var k, j := x / m - x' / m, y / m - y' / m;
    QuotientStep(x, x', m);
    QuotientStep(y, y', m);
    ProductBy(x', k * m, y', j * m);
    Collect(x', k, y', j, m);
    CongruentBy(x * y, x' * y', x' * j + k * y' + k * j * m, m);
  }

  lemma ProductBy(x: int, u: int, y: int, v: int)
    ensures (x + u) * (y + v) == x * y + x * v + u * y + u * v
  {
  }

  lemma Collect(x: int, k: int, y: int, j: int, m: int)
    ensures x * (j * m) + (k * m) * y + (k * m) * (j * m) == (x * j + k * y + k * j * m) * m
  {
    MulAssoc(x, j, m);
    assert (k * m) * y == (k * y) * m;
    assert (k * m) * (j * m) == (k * j * m) * m;
  }

  lemma PowerZero(x: int, d: int)
    ensures d * IntPow(x, 0) == d
  {
  }

  lemma QuotientStep(x: int, x': int, m: nat)
    requires m > 0 && Congruent(x, x', m)
    ensures x == x' + (x / m - x' / m) * m
  {
    assert x == m * (x / m) + x % m && x' == m * (x' / m) + x' % m;
    MulCommutes(m, x / m);
    MulCommutes(m, x' / m);
  }

  lemma {:induction false} CongruentPower(x: int, y: int, n: nat, m: nat)
    requires m > 0 && Congruent(x, y, m)
    ensures Congruent(IntPow(x, n), IntPow(y, n), m)
  {
    if n > 0 {
      CongruentPower(x, y, n - 1, m);
      CongruentProduct(x, IntPow(x, n - 1), y, IntPow(y, n - 1), m);
    }
  }

  /** One round on the numbers alone: e is halved, base squared, and d takes the odd factor. */
  lemma Round(d: int, base: int, e: nat, d': int, base': int, m: nat)
    requires m > 0 && e > 0 && Congruent(base', base * base, m)
    requires if e % 2 == 1 then Congruent(d', d * base, m) else d' == d
    ensures Congruent(d' * IntPow(base', e / 2), d * IntPow(base, e), m)
  {
    hide IntPow, Congruent;
    var h := e / 2;
    var o := if e % 2 == 1 then base else 1;
    IntPowSquare(base, h);
    assert IntPow(base, e) == o * IntPow(base, 2 * h) by {
      OddFactor(base, e);
    }
    CongruentPower(base', base * base, h, m);
    assert Congruent(d', d * o, m) by {
      Itself(d, m);
    }
    CongruentProduct(d', IntPow(base', h), d * o, IntPow(base * base, h), m);
    MulAssoc(d, o, IntPow(base, 2 * h));
  }

  lemma Itself(x: int, m: nat)
    requires m > 0
    ensures Congruent(x, x, m)
  {
  }

  lemma OddFactor(base: int, e: nat)
    ensures IntPow(base, e) == (if e % 2 == 1 then base else 1) * IntPow(base, 2 * (e / 2))
  {
    if e % 2 == 1 { assert e == 2 * (e / 2) + 1; } else { assert e == 2 * (e / 2); }
  }

  // ------------------------------------------------------------ the numbers

  /** A number without a fraction; a zero may carry a scale. */
  ghost predicate Whole(n: BcNum)
    reads n
  {
    n.Canon() && (n.mag > 0 ==> n.scale == 0)
  }

  ghost function Sgn(n: BcNum): int
    reads n
  {
    Signed(n.neg, n.mag)
  }

  /** A product of whole numbers. */
  method WholeProduct(x: BcNum, y: BcNum) returns (p: BcNum)
    requires Whole(x) && Whole(y)
    ensures fresh(p) && Whole(p) && Sgn(p) == Sgn(x) * Sgn(y)
  {
    hide Val, Pow, Ten, Holds;
    p := M(x, y, 0);
    ghost var cut := x.scale + y.scale - MulScale(x.scale, y.scale, 0);
    ZeroFactor(x.mag, y.mag);
    if x.mag == 0 || y.mag == 0 {
      assert x.mag * y.mag == 0;
      ZeroQuotient(0, Ten(cut));
      assert Sgn(x) * Sgn(y) == 0;
    } else {
      TenZero(x.mag * y.mag);
      SignsMultiply(x.neg, x.mag, y.neg, y.mag);
    }
  }

  lemma SignsMultiply(xneg: bool, x: int, yneg: bool, y: int)
    ensures Signed(xneg, x) * Signed(yneg, y) == Signed(xneg != yneg, x * y)
  {
    assert -x * y == -(x * y) && x * -y == -(x * y) && -x * -y == x * y;
  }

  /** The remainder of whole numbers is congruent and smaller than the modulus. */
  method Reduce(x: BcNum, c: BcNum) returns (r: BcNum)
    requires Whole(x) && Whole(c) && c.mag > 0
    ensures fresh(r) && Whole(r) && r.mag < c.mag && Congruent(Sgn(r), Sgn(x), c.mag)
  {
    hide Val, Pow, Ten, Holds, Quotient, Congruent;
    var ok;
    ok, r := Rem(x, c, 0);
    ReduceFacts(x, c, r);
  }

  lemma ReduceFacts(x: BcNum, c: BcNum, r: BcNum)
    requires Whole(x) && Whole(c) && c.mag > 0 && Remainder(x, c, r, 0, Max(c.scale, x.scale))
    ensures Whole(r) && r.mag < c.mag && Congruent(Sgn(r), Sgn(x), c.mag)
  {
    hide Val, Pow, Ten, Holds, Quotient, Congruent;
    var q := Quotient(x.mag, x.scale, c.mag, 0, 0);
    var t := Ten(x.scale);
    TenZero(x.mag);
    TenZero(c.mag);
    if x.mag == 0 {
      ProductZero(q * c.mag, t);
      MulMonotone(0, q, c.mag);
      MulMonotone(0, q * c.mag, t);
      Itself(0, c.mag);
    } else {
      TenZero(q * c.mag);
      SignedTimes(x.neg, q, c.mag);
      CongruentBy(Sgn(r), Sgn(x), -Signed(x.neg, q), c.mag);
    }
  }

  /** BC_NUM_ONE. */
  predicate IsOne(num: seq<int>, rdx: nat) {
    |num| == 1 && rdx == 0 && num[0] == 1
  }

  lemma OneMeansOne(n: BcNum)
    requires Whole(n) && n.mag <= 1
    ensures IsOne(n.num, n.rdx) <==> n.mag == 1
  {
    hide Val, Pow, Holds;
    EmptyValue();
    OneValue();
    if n.mag == 1 {
      WholeFacts(n);
      PPositive(0);
      ValInjective1(n.num);
    } else {
      assert n.num == [];
    }
  }

  lemma ValInjective1(s: seq<int>)
    requires Limbs(s) && V(s) == 1 && (s != [] ==> s[|s| - 1] != 0)
    ensures s == [1]
  {
    hide Val, Pow;
    PPositive(0);
    EmptyValue();
    OneValue();
    ShortByValue(s, 1);
    ValInjective(s, [1], BASE_POW);
  }

  method Two() returns (two: BcNum)
    ensures fresh(two) && Whole(two) && two.mag == 2 && two.scale == 0 && !two.neg
  {
    two := Single(2);
  }

  /** A number of one limb. */
  method Single(x: nat) returns (n: BcNum)
    requires 0 < x < 10
    ensures fresh(n) && Whole(n) && n.mag == x && n.scale == 0 && !n.neg
  {
    hide Val, Pow, Holds;
    PPositive(0);
    SingleLimb([x]);
    n := new BcNum();
    n.num, n.mag := [x], x;
    WholeHolds([x]);
  }

  /** The exponent halved, and the bit shifted out. The one-limb shortcut of bc_num_divmod is not taken
      here: it tests the result record, which has just been cleared. */
  method Halve(exp: BcNum, two: BcNum) returns (half: BcNum, bit: BcNum)
    requires Whole(exp) && Whole(two) && two.mag == 2 && exp.mag > 0 && !exp.neg && !two.neg
    ensures fresh(half) && fresh(bit) && Whole(half) && half.mag == exp.mag / 2 && (half.mag > 0 ==> !half.neg)
    ensures IsOne(bit.num, bit.rdx) <==> exp.mag % 2 == 1
    ensures bit.mag == exp.mag % 2 && (bit.mag > 0 ==> !bit.neg)
  {
    hide Val, Pow, Ten, Holds;
    var ok;
    TenZero(exp.mag);
    TenZero(two.mag);
    ok, half, bit := R(exp, two, 0, exp.scale);
    TenZero(half.mag * 2);
    OneMeansOne(bit);
  }

  /** Fails on a zero modulus, a negative exponent and on fractions; otherwise d is congruent to a^b, and
      below the modulus unless b is zero. */
  method Modexp(a: BcNum, b: BcNum, c: BcNum) returns (ok: bool, d: BcNum)
    requires a.Canon() && b.Canon() && c.Canon()
    ensures fresh(d) && ok == (c.mag > 0 && !b.neg && a.rdx == 0 && b.rdx == 0 && c.rdx == 0)
    ensures ok ==> Whole(d) && Congruent(Sgn(d), IntPow(Sgn(a), b.mag), c.mag) && (b.mag > 0 ==> d.mag < c.mag)
    ensures ok ==> (Sgn(d) - IntPow(Sgn(a), b.mag)) % c.mag == 0
  {
    hide Val, Pow, Ten, Holds, Congruent, IntPow;
    d := Single(1);
    if c.num == [] || b.neg || a.rdx > 0 || b.rdx > 0 || c.rdx > 0 {
      ok := false;
      return;
    }
    ok := true;
    OneLimbScale(a);
    OneLimbScale(b);
    OneLimbScale(c);
    var two := Two();
    var base := Reduce(a, c);
    var exp := new BcNum.Copy(b);
    ghost var m, goal := c.mag, IntPow(Sgn(a), b.mag);
    CongruentPower(Sgn(base), Sgn(a), b.mag, m);
    while exp.num != []
      invariant fresh(d) && fresh(base) && fresh(exp)
      invariant Whole(exp) && Whole(base) && Whole(d) && Whole(two) && two.mag == 2 && !two.neg && (exp.mag > 0 ==> !exp.neg)
      invariant Congruent(Sgn(d) * IntPow(Sgn(base), exp.mag), goal, m)
      invariant exp.mag == 0 && b.mag > 0 ==> d.mag < m
      decreases exp.mag
    {
      base, d, exp := ModexpRound(base, d, exp, two, c, goal);
    }
    PowerZero(Sgn(base), Sgn(d));
    CongruentDivides(Sgn(d), goal, m);
  }

  /** One round of the loop. */
  method ModexpRound(base: BcNum, d: BcNum, exp: BcNum, two: BcNum, c: BcNum, ghost goal: int)
    returns (base': BcNum, d': BcNum, half: BcNum)
    requires Whole(exp) && Whole(base) && Whole(d) && Whole(two) && two.mag == 2 && !two.neg && Whole(c) && c.mag > 0
    requires exp.mag > 0 && !exp.neg
    requires Congruent(Sgn(d) * IntPow(Sgn(base), exp.mag), goal, c.mag)
    ensures fresh(base') && (d' == d || fresh(d')) && fresh(half)
    ensures Whole(half) && Whole(base') && Whole(d') && half.mag < exp.mag && (half.mag > 0 ==> !half.neg)
    ensures Congruent(Sgn(d') * IntPow(Sgn(base'), half.mag), goal, c.mag)
    ensures half.mag == 0 ==> d'.mag < c.mag
  {
    hide Val, Pow, Ten, Holds, Congruent, IntPow;
    var bit;
    half, bit := Halve(exp, two);
    d' := d;
    if IsOne(bit.num, bit.rdx) && !bit.neg {
      var temp := WholeProduct(d, base);
      d' := Reduce(temp, c);
    }
    var square := WholeProduct(base, base);
    base' := Reduce(square, c);
    Round(Sgn(d), Sgn(base), exp.mag, Sgn(d'), Sgn(base'), c.mag);
    Chain(Sgn(d') * IntPow(Sgn(base'), half.mag), Sgn(d) * IntPow(Sgn(base), exp.mag), goal, c.mag);
  }

  lemma Chain(x: int, y: int, z: int, m: nat)
    requires m > 0 && Congruent(x, y, m) && Congruent(y, z, m)
    ensures Congruent(x, z, m)
  {
  }
}
