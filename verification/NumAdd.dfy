/** Addition and subtraction of numbers of any sign and scale: bc_num_as. */
module NumAdd {
  import opened Positional
  import opened NumKernel
  import opened Num

  function Limb(s: seq<int>, i: nat): int {
    if i < |s| then s[i] else 0
  }

  function Take(s: seq<int>, i: nat): seq<int> {
    if i < |s| then s[..i] else s
  }

  lemma TakeStep(s: seq<int>, i: nat)
    ensures V(Take(s, i + 1)) == V(Take(s, i)) + P(i) * Limb(s, i)
  {
    if i < |s| {
      ValPrefix(s, i, BASE_POW);
      assert Take(s, i + 1) == s[..i + 1];
    }
  }

  lemma LimbInRange(s: seq<int>, i: nat)
    requires Limbs(s)
    ensures 0 <= Limb(s, i) < BASE_POW
  {
    PPositive(0);
  }

  function Dir(sub: bool): int {
    if sub then -1 else 1
  }

  lemma RunColumn(c: seq<int>, sub: bool, carry: int, l: int, r: int, carry0: int, x: int, y: int, d: int, c': int)
    requires V(c) + Dir(sub) * carry * P(|c|) == l + Dir(sub) * (r + carry0)
    requires if sub then d - c' * BASE_POW == x - y - carry else d + c' * BASE_POW == x + y + carry
    ensures V(c + [d]) + Dir(sub) * c' * P(|c| + 1)
         == (l + P(|c|) * x) + Dir(sub) * ((r + P(|c|) * y) + carry0)
  {
    hide Val, Pow;
    CarryStep(c, Dir(sub) * carry, l + Dir(sub) * (r + carry0), d, Dir(sub) * c', x + Dir(sub) * y);
    MulDistrib(P(|c|), x, Dir(sub) * y);
  }

  /** The digit loops: l plus or minus r, limbs past an end read as zero, with carry in and out. */
  method Run(l: seq<int>, r: seq<int>, sub: bool, carry0: int, n: nat) returns (c: seq<int>, out: int)
    requires Limbs(l) && Limbs(r) && |l| <= n && |r| <= n && 0 <= carry0 <= 1
    ensures |c| == n && Limbs(c) && 0 <= out <= 1
    ensures V(c) + Dir(sub) * out * P(n) == V(l) + Dir(sub) * (V(r) + carry0)
  {
    hide Val, Pow, Limb, Take;
    c, out := [], carry0;
    TakeAll(l, n);
    TakeAll(r, n);
    EmptyValue();
    var i := 0;
    while i < n
      invariant i <= n && |c| == i && Limbs(c) && 0 <= out <= 1
      invariant V(c) + Dir(sub) * out * P(i) == V(Take(l, i)) + Dir(sub) * (V(Take(r, i)) + carry0)
    {
      var x, y := Limb(l, i), Limb(r, i);
      LimbInRange(l, i);
      LimbInRange(r, i);
      TakeStep(l, i);
      TakeStep(r, i);
      var (d, c') := if sub then SubDigits(x, y, out) else AddDigits(x, y, out);
      RunColumn(c, sub, out, V(Take(l, i)), V(Take(r, i)), carry0, x, y, d, c');
      c, out := c + [d], c';
      i := i + 1;
    }
  }

  lemma TakeAll(s: seq<int>, n: nat)
    requires n >= |s|
    ensures Take(s, n) == s && Take(s, 0) == []
  {
  }

  // --------------------------------------------------------- the larger one

  lemma LongerIsLarger(s: seq<int>, t: seq<int>)
    requires Limbs(s) && Limbs(t) && |s| < |t| && t[|t| - 1] != 0
    ensures V(s) < V(t)
  {
    hide Val, Pow;
    PPositive(0);
    ValBound(s, BASE_POW);
    ValBound(t, BASE_POW);
    if V(t) <= V(s) { ShortByValue(t, |s|); }
  }

  /** Comparing the upper part decides, up to the digits below it. */
  lemma UpperPart(a: seq<int>, k: nat, v: int)
    requires Limbs(a) && k <= |a|
    ensures V(a[k..]) < v ==> V(a) < P(k) * v
    ensures V(a[k..]) >= v ==> V(a) >= P(k) * v
  {
    hide Val, Pow;
    PPositive(k);
    ValSplit(a, k, BASE_POW);
    ValBound(a[..k], BASE_POW);
    if V(a[k..]) < v {
      TopDigit(V(a[k..]), v, P(k));
    } else {
      MulMonotone(v, V(a[k..]), P(k));
    }
  }

  /** A limb vector scaled to more fraction limbs. */
  function Lifted(s: seq<int>, rdx: nat, to: nat): (t: seq<int>)
    requires rdx <= to
    ensures |t| == |s| + to - rdx
  {
    Zeros(to - rdx) + s
  }

  lemma LiftedValue(s: seq<int>, rdx: nat, to: nat)
    requires Limbs(s) && rdx <= to
    ensures Limbs(Lifted(s, rdx, to)) && V(Lifted(s, rdx, to)) == P(to - rdx) * V(s)
    ensures to == rdx ==> V(Lifted(s, rdx, to)) == V(s)
  {
    ZerosBelow(to - rdx, s);
    if to == rdx { assert Zeros(0) + s == s; }
  }

  predicate Tidy(s: seq<int>, rdx: nat) {
    Limbs(s) && rdx <= |s| && (|s| > rdx ==> s[|s| - 1] != 0)
  }

  /** Whether a subtraction must be turned round, decided as the code does. */
  method Reversed(a: seq<int>, ardx: nat, b: seq<int>, brdx: nat) returns (rev: bool)
    requires Tidy(a, ardx) && Tidy(b, brdx)
    ensures var top := if ardx > brdx then ardx else brdx;
            var va, vb := V(Lifted(a, ardx, top)), V(Lifted(b, brdx, top));
            if rev then va <= vb else va >= vb
  {
    hide Val, Pow, Lifted;
    ghost var top := if ardx > brdx then ardx else brdx;
    LiftedValue(a, ardx, top);
    LiftedValue(b, brdx, top);
    var aInt, bInt := |a| - ardx, |b| - brdx;
    if aInt != bInt {
      rev := aInt < bInt;
      DifferentLengths(a, ardx, b, brdx, top);
    } else if ardx > brdx {
      var diff := ardx - brdx;
      var r := Compare(a[diff..], b);
      rev := r < 0;
      UpperPart(a, diff, V(b));
    } else {
      var diff := brdx - ardx;
      var r := Compare(a, b[diff..]);
      rev := r <= 0;
      UpperPart(b, diff, V(a));
      UpperPart(b, diff, V(a) + 1);
      MulDistrib(P(diff), V(a), 1);
    }
  }

  lemma DifferentLengths(a: seq<int>, ardx: nat, b: seq<int>, brdx: nat, top: nat)
    requires Tidy(a, ardx) && Tidy(b, brdx) && top == (if ardx > brdx then ardx else brdx)
    ensures |a| - ardx < |b| - brdx ==> V(Lifted(a, ardx, top)) < V(Lifted(b, brdx, top))
    ensures |a| - ardx > |b| - brdx ==> V(Lifted(a, ardx, top)) > V(Lifted(b, brdx, top))
  {
    var la, lb := Lifted(a, ardx, top), Lifted(b, brdx, top);
    LiftedValue(a, ardx, top);
    LiftedValue(b, brdx, top);
    if |a| - ardx < |b| - brdx { LongerIsLarger(la, lb); }
    if |a| - ardx > |b| - brdx { LongerIsLarger(lb, la); }
  }

  // ------------------------------------------------------------ the whole of it

  /** Low limbs from one operand, the rest from both. */
  lemma LowThenHigh(low: seq<int>, high: seq<int>, sub: bool, l: int, r: int, carry: int, out: int, lo: int)
    requires V(high) + Dir(sub) * out * P(|high|) == l + Dir(sub) * (r + carry)
    requires V(low) == lo + Dir(sub) * -carry * P(|low|)
    ensures V(low + high) + Dir(sub) * out * P(|low| + |high|) == lo + P(|low|) * (l + Dir(sub) * r)
  {
    var s, p, q := Dir(sub), P(|low|), P(|high|);
    ValAppend(low, high, BASE_POW);
    PowAdd(BASE_POW, |low|, |high|);
    hide Val, Pow;
    assert p * (V(high) + s * out * q) == p * (l + s * (r + carry));
    Algebra(p, q, V(high), s * out, l, s, r, carry);
  }

  lemma Algebra(p: int, q: int, h: int, o: int, l: int, s: int, r: int, carry: int)
    requires p * (h + o * q) == p * (l + s * (r + carry))
    ensures s * -carry * p + p * h + o * (p * q) == p * (l + s * r)
  {
    assert p * (l + s * (r + carry)) == p * (l + s * r) + s * carry * p;
    assert p * (h + o * q) == p * h + o * (p * q);
  }

  lemma CarryGone(v: int, s: int, out: int, p: int, t: int)
    requires 0 <= v < p && 0 <= t < p && 0 <= out <= 1 && (s == 1 || s == -1) && v + s * out * p == t
    ensures out == 0 && v == t
  {
  }

  lemma LowAndHigh(s: seq<int>, rdx: nat, to: nat, other: nat, n: nat)
    requires Limbs(s) && other <= rdx <= |s| && to == rdx && |s| <= n
    ensures var k := rdx - other;
            Limbs(s[..k]) && Limbs(s[k..]) && V(Lifted(s, rdx, to)) == V(s[..k]) + P(k) * V(s[k..])
  {
    LiftedValue(s, rdx, to);
    ValSplit(s, rdx - other, BASE_POW);
  }

  lemma SumFits(l: seq<int>, r: seq<int>, sub: bool, n: nat)
    requires Limbs(l) && Limbs(r) && |r| <= n && |l| <= n
    requires if sub then V(l) >= V(r) else |l| < n && |r| < n
    ensures 0 <= V(l) + Dir(sub) * V(r) < P(n)
  {
    ValBound(l, BASE_POW);
    ValBound(r, BASE_POW);
    PPositive(0);
    if sub {
      PowMonotone(BASE_POW, |l|, n);
    } else {
      PowMonotone(BASE_POW, |l|, n - 1);
      PowMonotone(BASE_POW, |r|, n - 1);
      PPositive(n - 1);
      MulMonotone(2, BASE_POW, P(n - 1));
    }
  }

  /** The part of bc_num_as after the order of the operands is settled. */
  method Combine(l: seq<int>, lrdx: nat, r: seq<int>, rrdx: nat, sub: bool, n: nat) returns (c: seq<int>)
    requires Limbs(l) && Limbs(r) && lrdx <= |l| && rrdx <= |r|
    requires var top := if lrdx > rrdx then lrdx else rrdx;
             var L, R := Lifted(l, lrdx, top), Lifted(r, rrdx, top);
             |L| <= n && |R| <= n && if sub then V(L) >= V(R) else |L| < n && |R| < n
    ensures var top := if lrdx > rrdx then lrdx else rrdx;
            |c| == n && Limbs(c) && V(c) == V(Lifted(l, lrdx, top)) + Dir(sub) * V(Lifted(r, rrdx, top))
  {
    hide Val, Pow, Lifted, Dir;
    ghost var top := if lrdx > rrdx then lrdx else rrdx;
    ghost var L, R := Lifted(l, lrdx, top), Lifted(r, rrdx, top);
    var diff := if lrdx > rrdx then lrdx - rrdx else rrdx - lrdx;
    LiftedValue(l, lrdx, top);
    LiftedValue(r, rrdx, top);
    SumFits(L, R, sub, n);
    EmptyValue();
    var low, carry, high, out := [], 0, [], 0;
    if lrdx > rrdx {
      LowAndHigh(l, lrdx, top, rrdx, n);
      low := l[..diff];
      high, out := Run(l[diff..], r, sub, 0, n - diff);
      LowThenHigh(low, high, sub, V(l[diff..]), V(r), 0, out, V(low));
      DirSplit(sub, P(diff), V(l[diff..]), V(r));
    } else {
      LowAndHigh(r, rrdx, top, lrdx, n);
      if sub {
        low, carry := Run([], r[..diff], true, 0, diff);
      } else {
        low := r[..diff];
      }
      high, out := Run(l, r[diff..], sub, carry, n - diff);
      DirLow(sub, V(r[..diff]), V(low), carry, P(diff));
      LowThenHigh(low, high, sub, V(l), V(r[diff..]), carry, out, Dir(sub) * V(r[..diff]));
      DirSplit(sub, P(diff), V(l), V(r[diff..]));
      MulDistrib(Dir(sub), V(r[..diff]), P(diff) * V(r[diff..]));
    }
    c := low + high;
    PPositive(0);
    ValBound(c, BASE_POW);
    DirIs(sub);
    CarryGone(V(c), Dir(sub), out, P(n), V(L) + Dir(sub) * V(R));
  }

  lemma DirIs(sub: bool)
    ensures Dir(sub) == 1 || Dir(sub) == -1
  {
  }

  lemma DirSplit(sub: bool, p: int, l: int, r: int)
    ensures p * (l + Dir(sub) * r) == p * l + Dir(sub) * (p * r)
  {
    if sub { assert p * -r == -(p * r); }
  }

  lemma DirLow(sub: bool, v: int, low: int, carry: int, p: int)
    requires if sub then low + Dir(true) * carry * p == 0 + Dir(true) * (v + 0) else low == v && carry == 0
    ensures low == Dir(sub) * v + Dir(sub) * -carry * p
  {
    if sub { assert Dir(true) * carry * p == -(carry * p); assert -1 * -carry * p == carry * p; }
  }

  /** bc_num_as: the exact sum or difference. An operand that is zero lends the result nothing, not even
      its scale. */
  method As(a: BcNum, b: BcNum, sub: bool) returns (c: BcNum)
    requires a.Canon() && b.Canon()
    ensures fresh(c) && c.Canon()
    ensures c.scale == if b.mag == 0 then a.scale else if a.mag == 0 then b.scale else Max(a.scale, b.scale)
    ensures var s := Max(a.scale, b.scale); c.At(s) == a.At(s) + Dir(sub) * b.At(s)
  {
    if b.num == [] {
      c := new BcNum.Copy(a);
      return;
    }
    if a.num == [] {
      c := new BcNum.Copy(b);
      c.neg := b.neg != sub;
      return;
    }
    c := AsNonzero(a, b, sub);
  }

  /** The limbs of the result, and whether the operands were turned round. */
  method AsLimbs(a: seq<int>, ardx: nat, b: seq<int>, brdx: nat, sub: bool) returns (c: seq<int>, rev: bool)
    requires Tidy(a, ardx) && Tidy(b, brdx)
    ensures Limbs(c) && ardx <= |c| && brdx <= |c| && |c| >= |a| && (rev ==> sub)
    ensures var top := if ardx > brdx then ardx else brdx;
            var va, vb := V(Lifted(a, ardx, top)), V(Lifted(b, brdx, top));
            (sub ==> if rev then va <= vb else va >= vb)
            && V(c) == if rev then vb + Dir(true) * va else va + Dir(sub) * vb
  {
    hide Val, Pow, Lifted;
    var aInt, bInt := |a| - ardx, |b| - brdx;
    var top := if ardx > brdx then ardx else brdx;
    var len := (if aInt > bInt then aInt else bInt) + top;
    rev := false;
    if sub {
      rev := Reversed(a, ardx, b, brdx);
    } else {
      len := len + 1;
    }
    if rev {
      c := Combine(b, brdx, a, ardx, true, len);
    } else {
      c := Combine(a, ardx, b, brdx, sub, len);
    }
  }

  /** Store a result and clean it. */
  method Cleaned(s: seq<int>, rdx: nat, scale: nat, neg: bool, ghost mag: nat) returns (c: BcNum)
    requires Holds(s, rdx, scale, mag)
    ensures fresh(c) && c.Canon() && c.scale == scale && c.mag == mag && (mag > 0 ==> c.neg == neg)
  {
    c := new BcNum();
    c.num, c.rdx, c.scale, c.neg, c.mag := s, rdx, scale, neg, mag;
    ZeroHolds(s, rdx, scale, mag, scale);
    c.Clean();
  }

  method AsNonzero(a: BcNum, b: BcNum, sub: bool) returns (c: BcNum)
    requires a.Canon() && b.Canon() && a.num != [] && b.num != []
    ensures fresh(c) && c.Canon() && c.scale == Max(a.scale, b.scale)
    ensures c.At(c.scale) == a.At(c.scale) + Dir(sub) * b.At(c.scale)
  {
    hide Val, Pow, Lifted, Rdx, Gap, Ten, Dir;
    var doSub := a.neg != (b.neg != sub);
    var scale := Max(a.scale, b.scale);
    LiftHolds(a.num, a.rdx, a.scale, a.mag, b.scale);
    LiftHolds(b.num, b.rdx, b.scale, b.mag, a.scale);
    var s, rev := AsLimbs(a.num, a.rdx, b.num, b.rdx, doSub);
    ghost var ma, mb := a.mag * Ten(scale - a.scale), b.mag * Ten(scale - b.scale);
    SumHolds(ma, mb, doSub, rev, Ten(Gap(scale)));
    ghost var mag := if rev then mb - ma else ma + Dir(doSub) * mb;
    var rdx := if a.rdx > b.rdx then a.rdx else b.rdx;
    ItHolds(s, rdx, scale, mag);
    c := Cleaned(s, rdx, scale, a.neg != rev, mag);
    TenZero(c.mag);
    SignsAgree(a.neg, b.neg, sub, doSub, rev, ma, mb, mag, c.neg);
  }

  lemma SignsAgree(aneg: bool, bneg: bool, sub: bool, doSub: bool, rev: bool, ma: nat, mb: nat, mag: nat, neg: bool)
    requires doSub == (aneg != (bneg != sub)) && (rev ==> doSub)
    requires mag == if rev then mb - ma else ma + Dir(doSub) * mb
    requires mag > 0 ==> neg == (aneg != rev)
    ensures Signed(neg, mag) == Signed(aneg, ma) + Dir(sub) * Signed(bneg, mb)
  {
  }

  lemma LiftHolds(num: seq<int>, rdx: nat, scale: nat, mag: nat, other: nat)
    requires Holds(num, rdx, scale, mag) && num != []
    ensures var s := Max(scale, other);
            var to := Rdx(s);
            to >= rdx && Limbs(Lifted(num, rdx, to)) && V(Lifted(num, rdx, to)) == (mag * Ten(s - scale)) * Ten(Gap(s))
            && (to == rdx || to == Rdx(other))
  {
    ExtendHolds(num, rdx, scale, mag, Max(scale, other) - scale);
  }

  lemma SumHolds(ma: nat, mb: nat, sub: bool, rev: bool, t: int)
    requires t > 0 && (sub ==> if rev then ma * t <= mb * t else ma * t >= mb * t) && (rev ==> sub)
    ensures (mb - ma) * t == mb * t + Dir(true) * (ma * t)
    ensures (ma + Dir(sub) * mb) * t == ma * t + Dir(sub) * (mb * t)
    ensures if rev then mb - ma >= 0 else ma + Dir(sub) * mb >= 0
  {
    if ma < mb { MulStrict(ma, mb, t); }
    if mb < ma { MulStrict(mb, ma, t); }
  }
}
