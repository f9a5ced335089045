/** Multiplication: Karatsuba's recursion over the schoolbook product (bc_num_k) and the full decimal
    product (bc_num_m), which call each other. */
module NumMul {
  import opened Positional
  import opened NumKernel
  import opened NumSchool
  import opened Num
  import opened NumAdd

  lemma WholeFacts(n: BcNum)
    requires n.Canon() && n.scale == 0
    ensures n.rdx == 0 && Limbs(n.num) && V(n.num) == n.mag
    ensures n.num != [] ==> n.num[|n.num| - 1] != 0
  {
    RdxDrop(0, 0);
    TenZero(n.mag);
  }

  lemma WholeIsShort(n: BcNum, k: nat)
    requires n.Canon() && n.scale == 0 && n.mag < P(k)
    ensures |n.num| <= k
  {
    WholeFacts(n);
    ShortByValue(n.num, k);
  }

  lemma SplitValues(n: seq<int>, idx: nat)
    requires Limbs(n)
    ensures idx < |n| ==> V(n) == V(n[..idx]) + P(idx) * V(n[idx..])
                          && 0 <= V(n[..idx]) < P(idx) && 0 <= V(n[idx..]) < P(Minus(|n|, idx))
    ensures |n| <= idx ==> 0 <= V(n) < P(idx) && 0 < P(Minus(|n|, idx))
  {
    PPositive(0);
    ValBound(n, BASE_POW);
    if idx < |n| {
      ValSplit(n, idx, BASE_POW);
      ValBound(n[..idx], BASE_POW);
      ValBound(n[idx..], BASE_POW);
    } else {
      PowMonotone(BASE_POW, |n|, idx);
    }
  }

  /** bc_num_split: the limbs below and above idx. */
  method Split(n: seq<int>, idx: nat) returns (lo: BcNum, hi: BcNum)
    requires Limbs(n)
    ensures fresh(lo) && fresh(hi) && lo.Canon() && hi.Canon() && lo.scale == hi.scale == 0
    ensures (lo.mag > 0 ==> !lo.neg) && (hi.mag > 0 ==> !hi.neg)
    ensures V(n) == lo.mag + P(idx) * hi.mag && lo.mag < P(idx) && hi.mag < P(Minus(|n|, idx))
  {
    hide Val, Pow, Holds;
    SplitValues(n, idx);
    if idx < |n| {
      WholeHolds(n[idx..]);
      WholeHolds(n[..idx]);
      hi := Cleaned(n[idx..], 0, 0, false, V(n[idx..]));
      lo := Cleaned(n[..idx], 0, 0, false, V(n[..idx]));
    } else {
      WholeHolds(n);
      hi := new BcNum();
      lo := Cleaned(n, 0, 0, false, V(n));
    }
  }

  // ----------------------------------------------------------- in whole numbers

  /** A product of n limbs put at off: at most one 2*max-limb unit of the result. */
  lemma TermFits(v: int, off: nat, n: nat, max: nat)
    requires 0 <= v < P(n) && off + n <= 2 * max
    ensures 0 <= P(off) * v <= P(2 * max)
  {
    hide Pow;
    PPositive(off);
    PowAdd(BASE_POW, off, n);
    PowMonotone(BASE_POW, off + n, 2 * max);
    MulMonotone(v, P(n), P(off));
    MulMonotone(0, v, P(off));
  }

  /** The result has room for five such units. */
  lemma Room(max: nat)
    ensures 5 * P(2 * max) < P(2 * max + 3) && P(2 * max) > 0
  {
    hide Pow;
    PPositive(2 * max);
    PPositive(2 * max + 1);
    PPositive(2 * max + 2);
    MulMonotone(6, BASE_POW, P(2 * max));
    MulMonotone(1, BASE_POW, P(2 * max + 1));
    MulMonotone(1, BASE_POW, P(2 * max + 2));
  }

  method AddTerm(c: seq<int>, off: nat, z: seq<int>, ghost n: nat, ghost max: nat, ghost k: nat) returns (r: seq<int>)
    requires Limbs(c) && Limbs(z) && |c| == 2 * max + 3 && off + n <= 2 * max && |z| <= n
    requires V(c) <= k * P(2 * max) && k <= 4
    ensures |r| == |c| && Limbs(r) && V(r) == V(c) + P(off) * V(z) && V(r) <= (k + 1) * P(2 * max)
  {
    hide Val, Pow;
    PPositive(0);
    ValBound(z, BASE_POW);
    PowMonotone(BASE_POW, |z|, n);
    TermFits(V(z), off, n, max);
    Room(max);
    MulMonotone(k + 1, 5, P(2 * max));
    assert (k + 1) * P(2 * max) == k * P(2 * max) + P(2 * max);
    r := AddArrays(c, off, z);
  }

  lemma ProductFits(x: int, y: int, m: nat, n: nat)
    requires 0 <= x < P(m) && 0 <= y < P(n)
    ensures 0 <= x * y < P(m + n)
  {
    hide Pow;
    PPositive(m);
    PowAdd(BASE_POW, m, n);
    MulMonotone(x, P(m), y);
    MulMonotone(0, x, y);
    MulStrict(y, P(n), P(m));
  }

  /** Karatsuba's identity. */
  lemma Karatsuba(l1: int, h1: int, l2: int, h2: int, x: int)
    ensures (x * x) * (h1 * h2) + x * (h1 * h2) + x * (l1 * l2) + l1 * l2 + x * ((h1 - l1) * (l2 - h2))
         == (l1 + x * h1) * (l2 + x * h2)
  {
    assert (h1 - l1) * (l2 - h2) == h1 * l2 - h1 * h2 - l1 * l2 + l1 * h2;
    MulDistrib(x, h1 * l2 + l1 * h2, -(h1 * h2) - l1 * l2);
    assert (l1 + x * h1) * (l2 + x * h2) == l1 * l2 + x * (l1 * h2) + x * (h1 * l2) + (x * x) * (h1 * h2) by {
      assert x * h1 * (x * h2) == (x * x) * (h1 * h2);
    }
  }

  /** The scale of a product: POSIX bc's min(a + b, max(scale, a, b)). */
  function MulScale(a: nat, b: nat, scale: nat): (s: nat)
    ensures s <= a + b && (s <= scale || s <= a || s <= b)
    ensures s == a + b || (s >= scale && s >= a && s >= b)
  {
    var m := Max(Max(scale, a), b);
    if a + b < m then a + b else m
  }

  predicate OneLimb(a: seq<int>, ardx: nat, b: seq<int>, brdx: nat) {
    (|a| == 1 || |b| == 1) && ardx == 0 && brdx == 0
  }

  /** One partial product of bc_num_k, added into the result at two places. */
  method AddTwice(c: seq<int>, x: BcNum, y: BcNum, off1: nat, off2: nat, ghost m: nat, ghost n: nat, ghost max: nat,
                  ghost k: nat)
    returns (r: seq<int>)
    requires x.Canon() && y.Canon() && x.scale == 0 && y.scale == 0 && x.mag < P(m) && y.mag < P(n) && m < max && n < max
    requires Limbs(c) && |c| == 2 * max + 3 && off1 + m + n <= 2 * max && off2 + m + n <= 2 * max
    requires V(c) <= k * P(2 * max) && k <= 3
    ensures |r| == |c| && Limbs(r) && V(r) <= (k + 2) * P(2 * max)
    ensures V(r) == V(c) + P(off1) * (x.mag * y.mag) + P(off2) * (x.mag * y.mag)
    decreases max, 0
  {
    hide Val, Pow, Holds;
    r := c;
    WholeIsShort(x, m);
    WholeIsShort(y, n);
    PPositive(2 * max);
    MulMonotone(k, k + 2, P(2 * max));
    if x.num != [] && y.num != [] {
      var z := M(x, y, 0);
      TenZero(x.mag * y.mag);
      ProductFits(x.mag, y.mag, m, n);
      WholeIsShort(z, m + n);
      WholeFacts(z);
      r := AddTerm(r, off1, z.num, m + n, max, k);
      r := AddTerm(r, off2, z.num, m + n, max, k + 1);
    }
  }

  /** The middle partial product, added or taken away. */
  method AddSigned(c: seq<int>, x: BcNum, y: BcNum, off: nat, ghost max: nat) returns (r: seq<int>)
    requires x.Canon() && y.Canon() && x.scale == 0 && y.scale == 0 && x.mag < P(off) && y.mag < P(off) && off < max
    requires Limbs(c) && |c| == 2 * max + 3 && 3 * off <= 2 * max && V(c) <= 4 * P(2 * max)
    requires V(c) + P(off) * (Signed(x.neg, x.mag) * Signed(y.neg, y.mag)) >= 0
    ensures |r| == |c| && Limbs(r)
    ensures V(r) == V(c) + P(off) * (Signed(x.neg, x.mag) * Signed(y.neg, y.mag))
    decreases max, 0
  {
    hide Val, Pow, Holds;
    r := c;
    WholeIsShort(x, off);
    WholeIsShort(y, off);
    SignedProduct(x.neg, x.mag, y.neg, y.mag, P(off));
    if x.num != [] && y.num != [] {
      var z := M(x, y, 0);
      TenZero(x.mag * y.mag);
      ProductFits(x.mag, y.mag, off, off);
      WholeIsShort(z, off + off);
      WholeFacts(z);
      if x.neg != y.neg {
        r := SubArrays(r, off, z.num);
      } else {
        r := AddTerm(r, off, z.num, off + off, max, 4);
      }
    }
  }

  lemma SignedProduct(xneg: bool, x: int, yneg: bool, y: int, p: int)
    ensures p * (Signed(xneg, x) * Signed(yneg, y)) == if xneg != yneg then -(p * (x * y)) else p * (x * y)
    ensures x == 0 || y == 0 ==> p * (x * y) == 0
  {
    assert -x * y == -(x * y) && x * -y == -(x * y) && -x * -y == x * y;
    assert p * -(x * y) == -(p * (x * y));
  }

  /** bc_num_k on whole numbers. */
  method K(a: seq<int>, b: seq<int>) returns (c: seq<int>)
    requires Limbs(a) && Limbs(b)
    ensures Limbs(c) && V(c) == V(a) * V(b)
    decreases Max(|a|, |b|), 2
  {
    hide Val, Pow;
    EmptyValue();
    OneValue();
    assert a == [1] ==> V(a) * V(b) == V(b);
    assert b == [1] ==> V(a) * V(b) == V(a);
    if a == [] || b == [] {
      return [];
    }
    if a == [1] {
      return b;
    }
    if b == [1] {
      return a;
    }
    if |a| < KARATSUBA_LEN || |b| < KARATSUBA_LEN {
      c := MulSimple(a, b);
      return;
    }
    c := Recurse(a, b);
  }

  lemma OneValue()
    ensures V([1]) == 1
  {
    EmptyValue();
    ValSnoc([], 1, BASE_POW);
    assert [] + [1] == [1];
  }

  /** The difference of two halves. */
  method Difference(x: BcNum, y: BcNum, ghost k: nat) returns (d: BcNum)
    requires x.Canon() && y.Canon() && x.scale == 0 && y.scale == 0 && x.mag < P(k) && y.mag < P(k)
    requires (x.mag > 0 ==> !x.neg) && (y.mag > 0 ==> !y.neg)
    ensures fresh(d) && d.Canon() && d.scale == 0 && d.mag < P(k) && Signed(d.neg, d.mag) == x.mag - y.mag
  {
    hide Pow, Holds;
    d := As(x, y, true);
    TenZero(x.mag);
    TenZero(y.mag);
    TenZero(d.mag);
  }

  lemma HalfSizes(a: nat, b: nat, max: nat, half: nat)
    requires max == Max(a, b) && max >= 3 && half == (max + 1) / 2
    ensures half < max && 3 * half <= 2 * max && max - half <= half
    ensures P(Minus(a, half)) <= P(max - half) <= P(half) && P(Minus(b, half)) <= P(max - half)
    ensures P(2 * half) == P(half) * P(half)
  {
    PPositive(0);
    PowMonotone(BASE_POW, Minus(a, half), max - half);
    PowMonotone(BASE_POW, Minus(b, half), max - half);
    PowMonotone(BASE_POW, max - half, half);
    PowAdd(BASE_POW, half, half);
  }

  /** The recursive case: z2 and z0 are each added twice and the product of the differences makes up the
      rest, all inside a result of 2*max + 3 limbs. */
  method Recurse(a: seq<int>, b: seq<int>) returns (c: seq<int>)
    requires Limbs(a) && Limbs(b) && |a| >= KARATSUBA_LEN && |b| >= KARATSUBA_LEN
    ensures Limbs(c) && V(c) == V(a) * V(b)
    decreases Max(|a|, |b|), 1
  {
    hide Val, Pow, Holds, BcNum.Canon;
    var max := Max(|a|, |b|);
    var max2 := (max + 1) / 2;
    HalfSizes(|a|, |b|, max, max2);
    var l1, h1 := Split(a, max2);
    var l2, h2 := Split(b, max2);
    var m1 := Difference(h1, l1, max2);
    var m2 := Difference(l2, h2, max2);
    c := Zeros(2 * (max + 1) + 1);
    ZerosAbove([], |c|);
    assert [] + c == c;
    EmptyValue();
    PPositive(2 * max);
    c := AddTwice(c, h1, h2, 2 * max2, max2, max - max2, max - max2, max, 0);
    c := AddTwice(c, l1, l2, max2, 0, max2, max2, max, 2);
    Karatsuba(l1.mag, h1.mag, l2.mag, h2.mag, P(max2));
    ProductBelow(a, b);
    c := AddSigned(c, m1, m2, max2, max);
  }

  lemma PreparedValue(num: seq<int>, rdx: nat, scale: nat, mag: nat, num': seq<int>, rdx': nat, mag': nat)
    requires Holds(num, rdx, scale, mag) && Holds(num', rdx', Minus(scale, rdx * BASE_DIGS), mag')
    requires mag' == mag * Ten(Minus(rdx * BASE_DIGS, scale))
    requires (num == [] <==> mag == 0) && (num' == [] <==> mag' == 0)
    requires |num'| > rdx' ==> num'[|num'| - 1] != 0
    ensures V(num') == V(num) && |num'| <= |num|
  {
    RdxDrop(0, 0);
    TenZero(mag');
    ValBound(num, BASE_POW);
    ProductZero(mag, Ten(Minus(rdx * BASE_DIGS, scale)));
    hide Val, Pow;
    EmptyValue();
    if num != [] { ShortByValue(num', |num|); }
  }

  lemma NextZero(n: seq<int>, zero: nat)
    requires zero < |n| && n[zero] == 0
    ensures P(zero) * V(n[zero..]) == P(zero + 1) * V(n[zero + 1..])
  {
    assert n[zero..][1..] == n[zero + 1..];
    MulAssoc(P(zero), BASE_POW, V(n[zero + 1..]));
    MulCommutes(P(zero), BASE_POW);
  }

  /** The operand as a whole number without low zero limbs, as bc_num_m prepares it. */
  method Prepared(a: BcNum) returns (s: seq<int>, zero: nat)
    requires a.Canon()
    ensures Limbs(s) && |s| <= |a.num| && V(a.num) == P(zero) * V(s)
  {
    hide Val, Pow, Holds, Rdx, Gap;
    var n := new BcNum.Copy(a);
    n.neg := false;
    ZeroHolds(a.num, a.rdx, a.scale, a.mag, a.scale);
    n.ShiftLeft(n.rdx * BASE_DIGS);
    PreparedValue(a.num, a.rdx, a.scale, a.mag, n.num, n.rdx, n.mag);
    ZeroHolds(n.num, n.rdx, n.scale, n.mag, n.scale);
    s, zero := ShiftZero(n.num);
  }

  /** bc_num_shiftZero: without the low zero limbs, and how many they were. */
  method ShiftZero(n: seq<int>) returns (s: seq<int>, zero: nat)
    requires Limbs(n)
    ensures Limbs(s) && |s| <= |n| && V(n) == P(zero) * V(s)
  {
    hide Val, Pow;
    s, zero := n, 0;
    EmptyValue();
    assert P(0) * V(s) == V(s);
    while zero < |n| && n[zero] == 0
      invariant zero <= |n| && s == n[zero..] && V(n) == P(zero) * V(s)
    {
      NextZero(n, zero);
      zero := zero + 1;
      s := n[zero..];
    }
  }

  /** A product of one whole limb. */
  method MulFast(a: BcNum, b: BcNum) returns (c: BcNum)
    requires a.Canon() && b.Canon() && OneLimb(a.num, a.rdx, b.num, b.rdx)
    ensures fresh(c) && c.Canon() && c.scale == 0 && (c.mag > 0 ==> c.neg == (a.neg != b.neg))
    ensures V(c.num) == V(a.num) * V(b.num) == c.mag
  {
    hide Val, Pow, Holds;
    var dig, operand := 0, a;
    if |a.num| == 1 {
      dig, operand := a.num[0], b;
      SingleLimb(a.num);
    } else {
      dig := b.num[0];
      SingleLimb(b.num);
    }
    ZeroHolds(a.num, a.rdx, a.scale, a.mag, a.scale);
    ZeroHolds(b.num, b.rdx, b.scale, b.mag, b.scale);
    var s := MulArray(operand.num, dig);
    WholeHolds(s);
    c := Cleaned(s, 0, 0, false, V(s));
    if c.num != [] {
      c.neg := a.neg != b.neg;
    }
    WholeFacts(c);
  }

  lemma SingleLimb(s: seq<int>)
    requires |s| == 1
    ensures V(s) == s[0]
  {
    EmptyValue();
    ValSnoc([], s[0], BASE_POW);
    assert [] + [s[0]] == s;
  }

  lemma FourFactors(p: int, x: int, q: int, y: int)
    ensures (x * y) * (p * q) == (p * x) * (q * y)
  {
    assert (x * y) * (p * q) == x * (y * (p * q)) == x * ((p * q) * y) == x * (p * (q * y));
  }

  /** Cutting the product of the limb vectors is cutting the product of the numbers. */
  lemma MulResult(ma: nat, sa: nat, mb: nat, sb: nat, s: nat, m: nat, x: nat)
    requires s <= sa + sb
    requires m == (ma * Ten(Gap(sa))) * (mb * Ten(Gap(sb)))
    requires ma > 0 && mb > 0 ==> x == sa + Gap(sa) + sb + Gap(sb)
    ensures (if s >= x then m * Ten(s - x) else m / Ten(x - s)) == (ma * mb) / Ten(sa + sb - s)
  {
    hide Val, Pow, Ten, Rdx, Gap;
    var ga, gb, cut := Gap(sa), Gap(sb), sa + sb - s;
    if ma == 0 || mb == 0 {
      assert ma * mb == 0 && m == 0;
      ZeroQuotient(0, Ten(cut));
      if x > s { ZeroQuotient(0, Ten(x - s)); }
    } else {
      TenAdd(ga, gb);
      TenAdd(cut, ga + gb);
      FourFactors(Ten(ga), ma, Ten(gb), mb);
      MulCommutes(ma, Ten(ga));
      MulCommutes(mb, Ten(gb));
      assert m == (ma * mb) * Ten(ga + gb);
      CancelFactor(ma * mb, Ten(cut), Ten(ga + gb));
      assert x - s == cut + (ga + gb);
      TenZero(m);
      assert x == s ==> cut == 0 && ga + gb == 0;
      assert Ten(x - s) == Ten(cut) * Ten(ga + gb);
    }
  }

  lemma RawProduct(a: int, b: int, p: nat, q: nat, x: int, y: int)
    requires a == P(p) * x && b == P(q) * y
    ensures (x * y) * Ten((p + q) * BASE_DIGS) == a * b
  {
    PowAdd(BASE_POW, p, q);
    LimbsAreDigits(p + q);
    FourFactors(P(p), x, P(q), y);
  }

  lemma Digits2(num: seq<int>, rdx: nat, scale: nat, mag: nat)
    requires Holds(num, rdx, scale, mag)
    ensures V(num) == mag * Ten(Gap(scale)) && Limbs(num)
    ensures num != [] ==> rdx * BASE_DIGS == scale + Gap(scale)
  {
  }

  lemma FastResult(a: seq<int>, ardx: nat, sa: nat, ma: nat, b: seq<int>, brdx: nat, sb: nat, mb: nat, s: nat)
    requires Holds(a, ardx, sa, ma) && Holds(b, brdx, sb, mb) && OneLimb(a, ardx, b, brdx) && (a == [] <==> ma == 0) && (b == [] <==> mb == 0)
    requires s <= sa + sb
    ensures V(a) * V(b) == (ma * mb) / Ten(sa + sb - s)
  {
    RdxDrop(0, 0);
    TenZero(ma);
    TenZero(mb);
    TenZero(ma * mb);
    if ma == 0 || mb == 0 {
      EmptyValue();
      ZeroQuotient(0, Ten(sa + sb - s));
      assert ma * mb == 0 && V(a) * V(b) == 0;
    }
  }

  method M(a: BcNum, b: BcNum, scale: nat) returns (c: BcNum)
    requires a.Canon() && b.Canon()
    ensures fresh(c) && c.Canon() && (c.mag > 0 ==> c.neg == (a.neg != b.neg))
    ensures var s := MulScale(a.scale, b.scale, scale);
            && c.scale == (if OneLimb(a.num, a.rdx, b.num, b.rdx) then 0 else s)
            && c.mag == (a.mag * b.mag) / Ten(a.scale + b.scale - s)
    ensures (|a.num| == 1 || |b.num| == 1) && a.rdx == 0 && b.rdx == 0 ==> c.scale == 0
    ensures a.rdx > 0 || b.rdx > 0 || (|a.num| != 1 && |b.num| != 1) ==>
              && c.scale <= a.scale + b.scale && (c.scale <= scale || c.scale <= a.scale || c.scale <= b.scale)
              && (c.scale == a.scale + b.scale || (c.scale >= scale && c.scale >= a.scale && c.scale >= b.scale))
              && c.mag == (a.mag * b.mag) / Ten(a.scale + b.scale - c.scale)
    decreases Max(|a.num|, |b.num|), 3
  {
    hide Val, Pow, Holds, Rdx, Gap, Ten, MulScale;
    var s := MulScale(a.scale, b.scale, scale);
    var ardx, brdx := a.rdx * BASE_DIGS, b.rdx * BASE_DIGS;
    Digits2(a.num, a.rdx, a.scale, a.mag);
    Digits2(b.num, b.rdx, b.scale, b.mag);
    if OneLimb(a.num, a.rdx, b.num, b.rdx) {
      FastResult(a.num, a.rdx, a.scale, a.mag, b.num, b.rdx, b.scale, b.mag, s);
      c := MulFast(a, b);
      return;
    }
    var pa, azero := Prepared(a);
    var pb, bzero := Prepared(b);
    var product := K(pa, pb);
    RawProduct(V(a.num), V(b.num), azero, bzero, V(pa), V(pb));
    MulResult(a.mag, a.scale, b.mag, b.scale, s, V(a.num) * V(b.num), ardx + brdx);
    c := Positioned(product, azero + bzero, ardx + brdx, s, a.neg, b.neg);
  }

  /** The end of bc_num_m: put back the low zero limbs and the point, then cut to scale. */
  method Positioned(product: seq<int>, zero: nat, places: nat, scale: nat, neg1: bool, neg2: bool) returns (c: BcNum)
    requires Limbs(product)
    ensures fresh(c) && c.Canon() && c.scale == scale && (c.mag > 0 ==> c.neg == (neg1 != neg2))
    ensures V(product) >= 0
    ensures var m := V(product) * Ten(zero * BASE_DIGS);
            c.mag == if scale >= places then m * Ten(scale - places) else m / Ten(places - scale)
  {
    hide Val, Pow, Holds, Rdx, Gap, Ten;
    WholeHolds(product);
    c := new BcNum();
    c.num, c.mag := product, V(product);
    c.ShiftLeft(zero * BASE_DIGS);
    c.ShiftRight(places);
    c.RetireMul(scale, neg1, neg2);
  }
}
