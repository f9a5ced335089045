/** Integer powers by square and multiply: bc_num_p, with bc_num_bigdig and bc_num_inv. */
module NumPow {
  import opened Positional
  import opened NumKernel
  import opened NumSchool
  import opened Num
  import opened NumAdd
  import opened NumMul
  import opened NumDiv
  import opened NumRem
  import opened NumModexp

  /** The wrap-around tests of bc_num_bigdig find exactly the overflows. */
  lemma WrapTests(r: nat, limb: nat)
    requires r < BIGDIG && limb < BASE_POW
    ensures var prev := (r * BASE_POW) % BIGDIG;
            && BASE_POW > 0
            && (prev / BASE_POW == r <==> r * BASE_POW < BIGDIG)
            && (r * BASE_POW < BIGDIG ==> prev == r * BASE_POW)
            && (r * BASE_POW < BIGDIG ==> ((prev + limb) % BIGDIG < prev <==> prev + limb >= BIGDIG))
  {
    BasePow();
    var x := r * BASE_POW;
    MulMonotone(0, r, BASE_POW);
    if x < BIGDIG {
      DivIs(x, BIGDIG, 0, x);
      DivIs(x, BASE_POW, r, 0);
      if x + limb >= BIGDIG {
        DivIs(x + limb, BIGDIG, 1, x + limb - BIGDIG);
      } else {
        DivIs(x + limb, BIGDIG, 0, x + limb);
      }
    } else {
      QuotientBound(x % BIGDIG, BASE_POW, r);
    }
  }

  /** bc_num_bigdig: the integer part as a machine word; fails on negative numbers and on overflow. */
  method Bigdig(n: BcNum) returns (ok: bool, r: nat)
    requires n.Canon()
    ensures n.rdx <= |n.num| && V(n.num[n.rdx..]) >= 0
    ensures ok == (!n.neg && V(n.num[n.rdx..]) < BIGDIG)
    ensures ok == (!n.neg && V(n.num[n.rdx..]) < if WIDE then 18446744073709551616 else 4294967296)
    ensures ok ==> r == V(n.num[n.rdx..])
  {
    hide Val, Pow;
    r := 0;
    var s, i := n.num, |n.num|;
    PPositive(0);
    ValBound(s[n.rdx..], BASE_POW);
    if n.neg {
      return false, 0;
    }
    EmptyValue();
    assert s[i..] == [];
    while i > n.rdx
      invariant n.rdx <= i <= |s| && r == V(s[i..]) && r < BIGDIG
    {
      WrapTests(r, s[i - 1]);
      BigdigStep(s, i, n.rdx, r);
      var prev := (r * BASE_POW) % BIGDIG;
      if prev / BASE_POW != r {
        return false, 0;
      }
      r := (prev + s[i - 1]) % BIGDIG;
      if r < prev {
        return false, 0;
      }
      i := i - 1;
    }
    ok := true;
  }

  lemma BigdigStep(s: seq<int>, i: nat, lo: nat, r: nat)
    requires Limbs(s) && lo < i <= |s| && r == V(s[i..]) && r < BIGDIG
    ensures V(s[i - 1..]) == r * BASE_POW + s[i - 1]
    ensures r * BASE_POW + s[i - 1] <= V(s[lo..])
    ensures r * BASE_POW + s[i - 1] < BIGDIG ==> (r * BASE_POW + s[i - 1]) % BIGDIG == r * BASE_POW + s[i - 1]
  {
    assert s[i - 1..][1..] == s[i..];
    SkipBelow(s, lo, i - 1);
    MulCommutes(r, BASE_POW);
    PPositive(0);
    MulMonotone(0, r, BASE_POW);
  }

  // ------------------------------------------------------- square and multiply

  /** n is a^k exactly. */
  ghost predicate IsPower(n: BcNum, a: BcNum, k: nat)
    reads n, a
  {
    && n.Canon() && n.mag > 0 && n.scale == a.scale * k && n.mag == Pow(a.mag, k)
    && n.neg == (a.neg && k % 2 == 1)
  }

  lemma PowerAlgebra(m: nat, s: nat, j: nat, k: nat)
    ensures s * j + s * k == s * (j + k) && Pow(m, j) * Pow(m, k) == Pow(m, j + k)
  {
    PowAdd(m, j, k);
    MulDistrib(s, j, k);
  }

  /** A product taken at the sum of the scales loses nothing. */
  method PowerProduct(a: BcNum, x: BcNum, y: BcNum, ghost j: nat, ghost k: nat, scale: nat) returns (p: BcNum)
    requires IsPower(x, a, j) && IsPower(y, a, k) && scale == x.scale + y.scale
    ensures fresh(p) && IsPower(p, a, j + k) && p.scale == scale
  {
    hide Val, Pow, Holds;
    PowerAlgebra(a.mag, a.scale, j, k);
    ZeroFactor(x.mag, y.mag);
    p := ExactProduct(x, y, scale);
  }

  lemma IsFirstPower(a: BcNum, n: BcNum)
    requires a.Canon() && a.mag > 0 && n.num == a.num && n.rdx == a.rdx && n.scale == a.scale && n.neg == a.neg
    requires n.mag == a.mag
    ensures IsPower(n, a, 1)
  {
    assert Pow(a.mag, 1) == a.mag * Pow(a.mag, 0) == a.mag;
  }

  lemma SamePower(n: BcNum, c: BcNum, a: BcNum, k: nat)
    requires IsPower(n, a, k) && c.num == n.num && c.rdx == n.rdx && c.scale == n.scale && c.neg == n.neg && c.mag == n.mag
    ensures IsPower(c, a, k)
  {
  }

  lemma Halved(unit: nat, pow: nat)
    ensures unit + unit == 2 * unit && unit * pow == (2 * unit) * (pow / 2) + unit * (pow % 2)
  {
    assert pow == 2 * (pow / 2) + pow % 2;
    assert unit * pow == unit * (2 * (pow / 2)) + unit * (pow % 2);
  }

  /** The loop over trailing zero bits. */
  method EvenPart(a: BcNum, n: nat) returns (copy: BcNum, pow: nat, ghost unit: nat)
    requires a.Canon() && a.mag > 0 && n > 0
    ensures fresh(copy) && IsPower(copy, a, unit) && pow % 2 == 1 && unit > 0 && n == unit * pow
  {
    hide Val, Pow, Holds, IsPower;
    copy := new BcNum.Copy(a);
    IsFirstPower(a, copy);
    pow, unit := n, 1;
    var powrdx := a.scale;
    while pow % 2 == 0
      invariant fresh(copy) && IsPower(copy, a, unit) && powrdx == copy.scale && pow > 0 && unit > 0 && n == unit * pow
      decreases pow
    {
      powrdx := powrdx * 2;
      Halved(unit, pow);
      copy := PowerProduct(a, copy, copy, unit, unit, powrdx);
      unit := unit + unit;
      pow := pow / 2;
    }
  }

  /** The main loop: square, and multiply in where the exponent has a bit. */
  method Powered(a: BcNum, n: nat) returns (c: BcNum)
    requires a.Canon() && a.mag > 0 && n > 0
    ensures fresh(c) && IsPower(c, a, n)
  {
    hide Val, Pow, Holds, IsPower;
    var copy, pow;
    ghost var unit;
    copy, pow, unit := EvenPart(a, n);
    c := new BcNum.Copy(copy);
    SamePower(copy, c, a, unit);
    var powrdx, resrdx := copy.scale, copy.scale;
    ghost var done := unit;
    Halved(unit, pow);
    while pow / 2 > 0
      invariant fresh(c) && fresh(copy) && IsPower(copy, a, unit) && IsPower(c, a, done)
      invariant powrdx == copy.scale && resrdx == c.scale && n == done + (2 * unit) * (pow / 2)
      decreases pow
    {
      pow := pow / 2;
      powrdx := powrdx * 2;
      copy := PowerProduct(a, copy, copy, unit, unit, powrdx);
      unit := unit + unit;
      Halved(unit, pow);
      if pow % 2 == 1 {
        resrdx := resrdx + powrdx;
        c := PowerProduct(a, c, copy, done, unit, resrdx);
        done := done + unit;
      }
    }
  }

  /** bc_num_inv. */
  method Inv(a: BcNum, scale: nat) returns (c: BcNum)
    requires a.Canon() && a.mag > 0
    ensures fresh(c) && c.Canon() && c.scale == scale && c.mag == Quotient(1, 0, a.mag, a.scale, scale)
    ensures c.mag > 0 ==> c.neg == a.neg
  {
    hide Quotient;
    var ok;
    var one := Single(1);
    ok, c := D(one, a, scale);
  }

  function PowerScale(sa: nat, n: nat, scale: nat): (s: nat)
    ensures s <= sa * n && (s <= scale || s <= sa)
    ensures s == sa * n || (s >= scale && s >= sa)
  {
    MulMonotone(0, sa, n);
    if sa * n < Max(scale, sa) then sa * n else Max(scale, sa)
  }

  /** What bc_num_p computes for nonzero a and b: a^|b| or its inverse, cut once, at the end. */
  ghost predicate Raised(c: BcNum, a: BcNum, b: BcNum, scale: nat)
    requires a.mag > 0
    reads c, a, b
  {
    var n := b.mag;
    && c.Canon() && (c.mag > 0 ==> c.neg == (a.neg && n % 2 == 1))
    && if b.neg then c.scale == scale && c.mag == Quotient(1, 0, Pow(a.mag, n), a.scale * n, scale)
       else c.scale == PowerScale(a.scale, n, scale) && c.mag == Pow(a.mag, n) / Ten(a.scale * n - c.scale)
  }

  method RaisedGeneral(a: BcNum, b: BcNum, pow: nat, scale: nat) returns (c: BcNum)
    requires a.Canon() && b.Canon() && a.mag > 0 && pow == b.mag > 0
    ensures fresh(c) && c.Canon() && Raised(c, a, b, scale)
  {
    hide Val, Pow, Holds, Quotient, PowerScale, Ten;
    var target := if b.neg then scale else PowerScale(a.scale, pow, scale);
    c := Powered(a, pow);
    if b.neg {
      c := Inv(c, target);
    }
    TenZero(c.mag);
    if c.scale > target {
      c.Truncate(c.scale - target);
    }
    SettleZero(c, target);
  }

  lemma AllZero(c: BcNum)
    requires c.Canon() && forall k :: 0 <= k < |c.num| ==> c.num[k] == 0
    ensures c.num == []
  {
    ValZeros(c.num, BASE_POW);
    ProductZero(c.mag, Ten(Gap(c.scale)));
  }

  /** The end of bc_num_p: a result of zero limbs becomes a clean zero. */
  method SettleZero(c: BcNum, scale: nat)
    requires c.Canon() && c.scale == scale
    modifies c
    ensures c.Canon() && c.scale == scale && c.mag == old(c.mag) && c.neg == old(c.neg)
  {
    hide Val, Pow, Holds;
    var s, zero, i := c.num, true, 0;
    while zero && i < |s|
      invariant 0 <= i <= |s|
      invariant zero ==> forall k :: 0 <= k < i ==> s[k] == 0
      invariant !zero ==> i > 0 && s[i - 1] != 0
    {
      zero := s[i] == 0;
      i := i + 1;
    }
    if zero {
      AllZero(c);
      ZeroHolds(c.num, c.rdx, c.scale, c.mag, scale);
      c.num, c.rdx, c.neg, c.scale := [], 0, false, scale;
    }
  }

  lemma ExponentValue(b: BcNum)
    requires b.Canon() && b.mag > 0 && b.rdx == 0
    ensures b.scale == 0 && V(b.num[0..]) == b.mag && (IsOne(b.num, b.rdx) ==> b.mag == 1) && BIGDIG > 1
  {
    hide Val, Pow;
    OneLimbScale(b);
    WholeFacts(b);
    assert b.num[0..] == b.num;
    if |b.num| == 1 { SingleLimb(b.num); }
  }

  /** An exponent of one or minus one skips the loops. */
  method RaisedOne(a: BcNum, b: BcNum, scale: nat) returns (c: BcNum)
    requires a.Canon() && b.Canon() && a.mag > 0 && b.mag == 1
    ensures fresh(c) && c.Canon() && Raised(c, a, b, scale)
  {
    hide Val, Holds, Quotient;
    assert Pow(a.mag, 1) == a.mag * Pow(a.mag, 0) == a.mag;
    assert a.scale * 1 == a.scale;
    TenZero(a.mag);
    if !b.neg {
      c := new BcNum.Copy(a);
    } else {
      c := Inv(a, scale);
    }
  }

  /** bc_num_p. */
  method Power(a: BcNum, b: BcNum, scale: nat) returns (ok: bool, c: BcNum)
    requires a.Canon() && b.Canon()
    ensures fresh(c) && ok == (b.rdx == 0 && (b.mag == 0 || if a.mag == 0 then !b.neg else b.mag < BIGDIG))
    ensures ok ==> c.Canon()
    ensures ok && b.mag == 0 ==> c.mag == 1 && c.scale == 0 && !c.neg
    ensures ok && b.mag > 0 && a.mag == 0 ==> c.mag == 0 && c.scale == scale
    ensures ok && b.mag > 0 && a.mag > 0 ==> Raised(c, a, b, scale)
    ensures ok && b.mag > 0 && a.mag > 0 && b.neg ==> c.scale == scale
    ensures ok && b.mag > 0 && a.mag > 0 && !b.neg ==>
              && c.scale <= a.scale * b.mag && (c.scale <= scale || c.scale <= a.scale)
              && (c.scale == a.scale * b.mag || (c.scale >= scale && c.scale >= a.scale))
              && c.mag == Pow(a.mag, b.mag) / Ten(a.scale * b.mag - c.scale)
              && (c.mag > 0 ==> c.neg == (a.neg && b.mag % 2 == 1))
  {
    hide Val, Pow, Holds, PowerScale;
    ok := true;
    c := new BcNum();
    if b.rdx > 0 {
      ok := false;
      return;
    }
    if b.num == [] {
      c := Single(1);
      return;
    }
    if a.num == [] {
      ZeroHolds([], 0, 0, 0, scale);
      c.scale := scale;
      ok := !b.neg;
      return;
    }
    ExponentValue(b);
    if IsOne(b.num, b.rdx) {
      c := RaisedOne(a, b, scale);
      return;
    }
    var pow;
    var abs := new BcNum.Copy(b);
    abs.neg := false;
    ok, pow := Bigdig(abs);
    if ok {
      c := RaisedGeneral(a, b, pow, scale);
    }
  }
}
