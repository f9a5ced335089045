/** Long division: bc_num_d_long and bc_num_d. */
module NumDiv {
  import opened Positional
  import opened NumKernel
  import opened Num

  // ------------------------------------------------------ one quotient limb

  /** The value of the divisor against its leading limb: `top` counts one more when lower limbs are not
      all zero. */
  ghost predicate Leads(b: seq<int>, divisor: nat, nonzero: bool) {
    && Limbs(b) && b != [] && b[|b| - 1] > 0
    && divisor == b[|b| - 1] + (if nonzero then 1 else 0)
    && (nonzero <==> V(b[..|b| - 1]) > 0)
  }

  lemma LeadsBounds(b: seq<int>, divisor: nat, nonzero: bool)
    requires Leads(b, divisor, nonzero)
    ensures var p := P(|b| - 1);
            b != [] && Limbs(b) && p > 0 && divisor > 0 && p <= V(b) <= divisor * p && (!nonzero ==> V(b) == divisor * p)
  {
    hide Val, Pow;
    var k := |b| - 1;
    PPositive(k);
    ValPrefix(b, k, BASE_POW);
    assert b[..k + 1] == b;
    ValBound(b[..k], BASE_POW);
    MulMonotone(1, b[k], P(k));
    assert (b[k] + 1) * P(k) == P(k) * b[k] + P(k);
    MulCommutes(b[k], P(k));
  }

  /** Limbs above a small enough value are zero. */
  lemma AboveZero(w: seq<int>, n: nat)
    requires Limbs(w) && n <= |w| && V(w) < P(n)
    ensures V(w) == V(w[..n]) >= 0
  {
    hide Val, Pow;
    PPositive(n);
    ValSplit(w, n, BASE_POW);
    ValBound(w[..n], BASE_POW);
    ValBound(w[n..], BASE_POW);
    LargeFactor(P(n), V(w[n..]));
  }

  lemma LargeFactor(p: int, v: int)
    requires p > 0 && v >= 0
    ensures v > 0 ==> p * v >= p
    ensures v == 0 ==> p * v == 0
  {
    if v > 0 { MulMonotone(1, v, p); }
  }

  /** The two leading limbs of a window are its value cut below them. */
  lemma LeadingTwo(w: seq<int>, len: nat) returns (lo: int)
    requires Limbs(w) && 0 < len < |w| && V(w) < P(len + 1)
    ensures 0 <= lo < P(len - 1) && 0 <= w[len] * BASE_POW + w[len - 1]
    ensures V(w) == lo + P(len - 1) * (w[len] * BASE_POW + w[len - 1])
  {
    hide Val, Pow;
    var k := len - 1;
    lo := V(w[..k]);
    PPositive(k);
    ValBound(w[..k], BASE_POW);
    AboveZero(w, len + 1);
    ValPrefix(w, len, BASE_POW);
    ValPrefix(w, k, BASE_POW);
    TwoLimbs(P(k), P(len), w[len], w[k]);
    MulMonotone(0, w[len], BASE_POW);
  }

  lemma TwoLimbs(p: int, pb: int, x: int, y: int)
    requires pb == BASE_POW * p
    ensures p * y + pb * x == p * (x * BASE_POW + y)
  {
    assert pb * x == p * (x * BASE_POW);
  }

  /** The estimate never overshoots, and is exact when the divisor has one significant limb. */
  lemma Estimate(w: int, lo: int, p: int, dividend: nat, divisor: nat, b: int, q: nat)
    requires p > 0 && divisor > 0 && 0 <= lo < p && w == lo + p * dividend && b <= divisor * p && q == dividend / divisor
    ensures q * b <= w
    ensures b == divisor * p ==> w - q * b < b
  {
    var r := dividend % divisor;
    assert dividend == divisor * q + r;
    MulMonotone(b, divisor * p, q);
    assert q * (divisor * p) == p * (divisor * q);
    MulDistrib(p, divisor * q, r);
    MulMonotone(0, r, p);
    MulMonotone(r, divisor - 1, p);
    assert (divisor - 1) * p == divisor * p - p;
    MulCommutes(b, q);
  }

  /** bc_num_divCmp on a window that has no more than one limb above the divisor's. */
  method DivCmp(w: seq<int>, b: seq<int>) returns (cmp: int)
    requires Limbs(w) && Limbs(b) && |b| < |w| && V(w) < P(|b| + 1)
    ensures cmp >= 0 <==> V(w) >= V(b)
  {
    hide Val, Pow;
    var len := |b|;
    HighPart(w, len);
    ValBound(b, BASE_POW);
    if w[len] != 0 {
      return 1;
    }
    cmp := Compare(w[..len], b);
  }

  lemma HighPart(w: seq<int>, len: nat)
    requires Limbs(w) && len < |w| && V(w) < P(len + 1)
    ensures if w[len] != 0 then V(w) >= P(len) > 0 else V(w) == V(w[..len])
  {
    hide Val, Pow;
    PPositive(len);
    AboveZero(w, len + 1);
    ValBound(w[..len], BASE_POW);
    ValPrefix(w, len, BASE_POW);
    LargeFactor(P(len), w[len]);
  }

  /** Take q times the divisor away: directly for one, by bc_num_mulArray for more. */
  method TakeAway(w: seq<int>, b: seq<int>, q: nat) returns (r: seq<int>)
    requires Limbs(w) && Limbs(b) && |b| < |w| && 1 <= q <= BASE_POW && q * V(b) <= V(w)
    ensures |r| == |w| && Limbs(r) && V(r) == V(w) - q * V(b)
  {
    hide Val, Pow;
    EmptyValue();
    if q <= 1 {
      r := SubArrays(w, 0, b);
    } else {
      var product := MulArray(b, q);
      assert P(0) * V(product) == V(product);
      r := SubArrays(w, 0, product);
    }
  }

  lemma EstimateLimbs(w: seq<int>, b: seq<int>, divisor: nat, nonzero: bool)
    requires Leads(b, divisor, nonzero) && Limbs(w) && |b| < |w| && V(b) <= V(w) < BASE_POW * V(b)
    ensures b != [] && Limbs(b) && divisor > 0 && 0 < V(b)
    ensures var dividend := w[|b|] * BASE_POW + w[|b| - 1];
            dividend >= 0 && 0 <= dividend / divisor < BASE_POW && (dividend / divisor) * V(b) <= V(w)
            && (!nonzero ==> V(w) - (dividend / divisor) * V(b) < V(b))
  {
    hide Val, Pow, Leads;
    var len := |b|;
    LeadsBounds(b, divisor, nonzero);
    WindowFits(w, b);
    var dividend := w[len] * BASE_POW + w[len - 1];
    var lo := LeadingTwo(w, len);
    DivisionPositive(dividend, divisor);
    Estimate(V(w), lo, P(len - 1), dividend, divisor, V(b), dividend / divisor);
    QuotientIsLimb(V(w), dividend / divisor, V(b), 0, V(w));
  }

  lemma DivisionPositive(x: nat, d: nat)
    requires d > 0
    ensures x / d >= 0
  {
  }

  /** One estimate, from the two leading limbs and the divisor's leading limb, and its subtraction. */
  method EstimateStep(w: seq<int>, b: seq<int>, divisor: nat, nonzero: bool) returns (r: seq<int>, q: nat)
    requires Leads(b, divisor, nonzero) && Limbs(w) && |b| < |w| && V(b) <= V(w) < BASE_POW * V(b)
    ensures |r| == |w| && Limbs(r) && 1 <= q && V(r) == V(w) - q * V(b) >= 0
    ensures !nonzero ==> V(r) < V(b)
  {
    hide Val, Pow, Leads;
    var len := |b|;
    EstimateLimbs(w, b, divisor, nonzero);
    q := (w[len] * BASE_POW + w[len - 1]) / divisor;
    if q <= 1 {
      q := 1;
    }
    PPositive(0);
    r := TakeAway(w, b, q);
  }

  /** The quotient limb taken out of a window: estimate, subtract, and correct until the remainder is
      below the divisor. */
  method QuotientLimb(w: seq<int>, b: seq<int>, divisor: nat, nonzero: bool) returns (r: seq<int>, result: int)
    requires Leads(b, divisor, nonzero) && Limbs(w) && |b| < |w| && V(w) < BASE_POW * V(b)
    ensures |r| == |w| && Limbs(r) && 0 <= result < BASE_POW
    ensures V(w) == V(r) + result * V(b) && 0 <= V(r) < V(b)
  {
    hide Val, Pow, Leads;
    LeadsBounds(b, divisor, nonzero);
    WindowFits(w, b);
    r, result := w, 0;
    var cmp := DivCmp(r, b);
    while cmp >= 0
      invariant |r| == |w| && Limbs(r) && 0 <= result && 0 <= V(r) <= V(w)
      invariant V(w) == V(r) + result * V(b) && (cmp >= 0 <==> V(r) >= V(b))
      decreases V(r)
    {
      var r', q := EstimateStep(r, b, divisor, nonzero);
      Regroup(V(w), V(r), q, V(b), result);
      r, result := r', result + q;
      if nonzero {
        cmp := DivCmp(r, b);
      } else {
        cmp := -1;
      }
    }
    QuotientIsLimb(V(r), 0, V(b), result, V(w));
  }

  lemma Regroup(w: int, rest: int, q: int, b: int, result: int)
    requires w == rest + result * b && q >= 1 && b > 0 && q * b <= rest && w < BASE_POW * b && result >= 0
    ensures w == (rest - q * b) + (result + q) * b && rest - q * b < rest && q < BASE_POW
  {
    QuotientIsLimb(rest, q, b, result, w);
    assert (result + q) * b == result * b + q * b;
    MulMonotone(1, q, b);
  }

  lemma WindowFits(w: seq<int>, b: seq<int>)
    requires Limbs(w) && Limbs(b) && V(w) < BASE_POW * V(b)
    ensures 0 <= V(w) < P(|b| + 1)
  {
    hide Val, Pow;
    PPositive(|b|);
    ValBound(w, BASE_POW);
    ValBound(b, BASE_POW);
    MulMonotone(V(b), P(|b|), BASE_POW);
  }

  lemma QuotientIsLimb(rest: int, q: int, b: int, result: int, w: int)
    requires b > 0 && q * b <= rest && result >= 0 && w == rest + result * b && w < BASE_POW * b
    ensures q + result < BASE_POW
  {
    assert (q + result) * b == q * b + result * b;
    if q + result >= BASE_POW { MulMonotone(BASE_POW, q + result, b); }
  }

  // ----------------------------------------------------------- all the limbs

  /** The remainder before any step: the top limb is zero, so what lies above is below the divisor. */
  lemma StartsBelow(a: seq<int>, b: seq<int>, divisor: nat, nonzero: bool)
    requires Leads(b, divisor, nonzero) && Limbs(a) && |b| < |a| && a[|a| - 1] == 0
    ensures V(a[|a| - |b|..]) < V(b)
  {
    hide Val, Pow;
    LeadsBounds(b, divisor, nonzero);
    var w := a[|a| - |b|..];
    PPositive(0);
    TopZero(w);
    ValBound(w[..|w| - 1], BASE_POW);
  }

  lemma WindowBelow(r: seq<int>, i: nat, v: int)
    requires Limbs(r) && i < |r| && V(r[i + 1..]) < v
    ensures V(r[i..]) < BASE_POW * v
  {
    PPositive(0);
    assert r[i..][1..] == r[i + 1..];
    ValBound(r[i + 1..], BASE_POW);
    DigitBound(r[i], V(r[i + 1..]), v, BASE_POW);
  }

  lemma StepKeeps(a: int, r: seq<int>, i: nat, w: seq<int>, result: int, c: seq<int>, b: int)
    requires i < |r| && |w| == |r| - i && V(r[i..]) == V(w) + result * b
    requires i < |c| && c[i] == 0 && a == V(r) + V(c) * b
    ensures a == V(r[..i] + w) + V(c[i := result]) * b
  {
    hide Val, Pow;
    ValSplit(r, i, BASE_POW);
    ValAppend(r[..i], w, BASE_POW);
    SetLimb(c, i, result);
    StepAlgebra(V(r[..i]), P(i), V(w), result, V(c), b);
  }

  lemma StepAlgebra(lo: int, p: int, w: int, result: int, c: int, b: int)
    ensures lo + p * (w + result * b) + c * b == lo + p * w + (c + p * result) * b
  {
    assert p * (w + result * b) == p * w + p * result * b;
  }

  lemma QuotientReached(a: int, r: seq<int>, i: nat, skip: nat, c: seq<int>, b: int)
    requires Limbs(r) && i <= skip <= |r| && skip <= |c| && b > 0
    requires a == V(r) + V(c) * b && V(r[i..]) < b && c[..skip] == Zeros(skip)
    ensures P(skip) * b > 0 && V(c) == P(skip) * (a / (P(skip) * b))
  {
    hide Val, Pow;
    var p := P(skip);
    PPositive(skip);
    SkipBelow(r, i, skip);
    ValSplit(c, skip, BASE_POW);
    ValZeros(c[..skip], BASE_POW);
    ValSplit(r, skip, BASE_POW);
    ValBound(r[..skip], BASE_POW);
    ValBound(r, BASE_POW);
    MulMonotone(V(r[skip..]), b - 1, p);
    MulMonotone(1, b, p);
    assert (b - 1) * p == p * b - p;
    MulCommutes(V(r[skip..]), p);
    QuotientAlgebra(a, V(r), p, b, V(c[skip..]));
  }

  lemma QuotientAlgebra(a: int, r: int, p: int, b: int, q: int)
    requires 0 <= r < p * b && a == r + (p * q) * b
    ensures q == a / (p * b)
  {
    assert (p * q) * b == (p * b) * q;
    DivIs(a, p * b, q, r);
  }

  lemma SkipBelow(r: seq<int>, i: nat, skip: nat)
    requires Limbs(r) && i <= skip <= |r|
    ensures V(r[skip..]) <= V(r[i..])
  {
    hide Val, Pow;
    var w := r[i..];
    PPositive(skip - i);
    ValSplit(w, skip - i, BASE_POW);
    assert w[skip - i..] == r[skip..];
    ValBound(w[..skip - i], BASE_POW);
    ValBound(r[skip..], BASE_POW);
    MulGrows(P(skip - i), V(r[skip..]));
  }

  /** The loop of bc_num_d_long: quotient limbs from the top down to `skip`. */
  method DivideLimbs(a: seq<int>, b: seq<int>, divisor: nat, nonzero: bool, skip: nat, clen: nat) returns (c: seq<int>)
    requires Leads(b, divisor, nonzero) && Limbs(a) && |b| < |a| && a[|a| - 1] == 0
    requires skip <= |a| && skip <= clen && |a| - |b| <= clen
    ensures |c| == clen && Limbs(c) && P(skip) * V(b) > 0 && V(c) == P(skip) * (V(a) / (P(skip) * V(b)))
  {
    hide Val, Pow, Leads, Zeros;
    LeadsBounds(b, divisor, nonzero);
    StartsBelow(a, b, divisor, nonzero);
    var r := a;
    c := Zeros(clen);
    ZerosAre(clen);
    var i := |a| - |b|;
    while i > skip
      invariant 0 <= i <= |a| - |b| && |r| == |a| && Limbs(r) && |c| == clen && Limbs(c)
      invariant V(a) == V(r) + V(c) * V(b) && V(r[i..]) < V(b)
      invariant c[..Max(i, skip)] == Zeros(Max(i, skip))
    {
      i := i - 1;
      WindowBelow(r, i, V(b));
      ZerosAre(i + 1);
      ZerosAre(i);
      var w, result := QuotientLimb(r[i..], b, divisor, nonzero);
      assert c[i] == c[..i + 1][i];
      StepKeeps(V(a), r, i, w, result, c, V(b));
      assert c[i := result][..i] == c[..i + 1][..i];
      r := r[..i] + w;
      assert r[i..] == w;
      c := c[i := result];
    }
    ZerosAre(skip);
    QuotientReached(V(a), r, i, skip, c, V(b));
  }

  lemma ZerosAre(n: nat)
    ensures |Zeros(n)| == n && Limbs(Zeros(n)) && V(Zeros(n)) == 0
    ensures forall i :: 0 <= i < n ==> Zeros(n)[i] == 0
    ensures forall i :: 0 <= i <= n ==> Zeros(n)[..i] == Zeros(i)
  {
    PPositive(0);
    ValZeros(Zeros(n), BASE_POW);
  }

  // ------------------------------------------------- a long enough leading limb

  /** bc_num_nonZeroDig: is any limb nonzero. */
  method NonZeroDig(s: seq<int>) returns (nonzero: bool)
    requires Limbs(s)
    ensures nonzero <==> V(s) > 0
  {
    hide Val, Pow;
    nonzero := false;
    var i := |s|;
    while i > 0 && !nonzero
      invariant 0 <= i <= |s| && (nonzero ==> i < |s| && s[i] != 0)
      invariant !nonzero ==> forall k :: i <= k < |s| ==> s[k] == 0
    {
      i := i - 1;
      nonzero := s[i] != 0;
    }
    PPositive(0);
    if nonzero {
      ValPositive(s, i, BASE_POW);
    } else {
      ValZeros(s, BASE_POW);
    }
  }

  /** bc_num_log10: the number of decimal digits. */
  method Log10(x: nat) returns (len: nat)
    ensures x < Ten(len) && (x > 0 ==> len > 0 && Ten(len - 1) <= x)
  {
    len := 0;
    var i := x;
    while i > 0
      invariant i >= 0 && i * Ten(len) <= x < (i + 1) * Ten(len)
      invariant i == 0 && x > 0 ==> len > 0 && Ten(len - 1) <= x
      decreases i
    {
      DropDigit(x, i, Ten(len));
      i := i / 10;
      len := len + 1;
    }
  }

  lemma DropDigit(x: nat, i: nat, t: nat)
    requires i > 0 && i * t <= x < (i + 1) * t
    ensures (i / 10) * (10 * t) <= x < (i / 10 + 1) * (10 * t)
    ensures t <= x
  {
    MulMonotone((i / 10) * 10, i, t);
    MulMonotone(i + 1, (i / 10 + 1) * 10, t);
    MulMonotone(1, i, t);
    assert (i / 10) * (10 * t) == ((i / 10) * 10) * t;
    assert (i / 10 + 1) * (10 * t) == ((i / 10 + 1) * 10) * t;
  }

  /** Largest leading limb that is moved up before dividing: 1 << ((10 * BC_BASE_DIGS) / 6 + 1). */
  const SMALL_DIVISOR: nat := if WIDE then 65536 else 128

  lemma SmallDivisor(digits: nat, x: nat)
    requires 0 < x <= SMALL_DIVISOR && digits > 0 && Ten(digits - 1) <= x < Ten(digits)
    ensures digits < BASE_DIGS
  {
    assert Pow(10, 3) == 1000;
    assert Pow(10, 5) == 100000;
    PowAdd(10, 3, 5);
    if digits >= BASE_DIGS { PowMonotone(10, BASE_DIGS - 1, digits - 1); }
  }

  /** Moving a whole limb vector up by less than a limb, seen through bc_num_shiftLeft's contract. */
  lemma MovedUp(rdx: nat, mag: nat, pow: nat)
    requires 0 < pow < BASE_DIGS
    ensures var scale := rdx * BASE_DIGS;
            Gap(scale) == 0 && Rdx(scale) == rdx && Rdx(Minus(scale, pow)) == rdx
            && (mag * Ten(Minus(pow, scale))) * Ten(Gap(Minus(scale, pow))) == mag * Ten(pow)
  {
    WholeLimbs(rdx);
    WholeLimbs(0);
    TenZero(mag);
    TenZero(mag * Ten(pow));
    if rdx > 0 {
      LessThanLimb(rdx, pow);
    }
  }

  lemma WholeLimbs(rdx: nat)
    ensures Gap(rdx * BASE_DIGS) == 0 && Rdx(rdx * BASE_DIGS) == rdx
  {
  }

  lemma LessThanLimb(rdx: nat, pow: nat)
    requires rdx > 0 && 0 < pow < BASE_DIGS
    ensures pow <= rdx * BASE_DIGS && Gap(rdx * BASE_DIGS - pow) == pow && Rdx(rdx * BASE_DIGS - pow) == rdx
  {
  }

  /** The dividend as bc_num_d hands it over: whole fraction limbs and a zero limb in front. */
  ghost predicate Dividend(a: BcNum)
    reads a
  {
    a.Weak() && a.scale == a.rdx * BASE_DIGS && a.mag > 0 && a.num != [] && a.num[|a.num| - 1] == 0
  }

  ghost predicate Divisor(b: BcNum)
    reads b
  {
    b.Canon() && b.scale == 0 && b.mag > 0
  }

  lemma DivisorFacts(b: BcNum)
    requires Divisor(b)
    ensures b.rdx == 0 && Limbs(b.num) && b.num != [] && b.num[|b.num| - 1] > 0 && V(b.num) == b.mag
  {
    RdxDrop(0, 0);
    TenZero(b.mag);
  }

  lemma DividendFacts(a: BcNum)
    requires Dividend(a)
    ensures Limbs(a.num) && a.rdx <= |a.num| && V(a.num) == a.mag && a.mag < P(|a.num| - 1)
  {
    WholeLimbs(a.rdx);
    TenZero(a.mag);
    hide Val, Pow;
    TopZero(a.num);
    ValBound(a.num[..|a.num| - 1], BASE_POW);
  }

  lemma SameLength(b: seq<int>, b': seq<int>, t: nat, digits: nat)
    requires Limbs(b) && b != [] && b[|b| - 1] > 0 && b[|b| - 1] < Ten(digits) && digits <= BASE_DIGS
    requires t == Ten(BASE_DIGS - digits)
    requires Limbs(b') && (b' != [] ==> b'[|b'| - 1] != 0) && V(b') == V(b) * t
    ensures |b'| == |b| && b'[|b'| - 1] > 0
  {
    hide Val, Pow;
    var k, top := |b| - 1, b[|b| - 1];
    PPositive(k);
    ValPrefix(b, k, BASE_POW);
    assert b[..k + 1] == b;
    ValBound(b[..k], BASE_POW);
    TenAdd(digits, BASE_DIGS - digits);
    TopTimes(V(b), P(k), top, t, Ten(digits), BASE_POW);
    ShortByValue(b', |b|);
    ValBound(b', BASE_POW);
    if |b'| <= k { PowMonotone(BASE_POW, |b'|, k); }
  }

  lemma TopTimes(v: int, p: int, top: int, t: int, tens: int, base: int)
    requires p * top <= v < p * top + p && p > 0 && 1 <= top < tens && t > 0 && tens * t == base
    ensures p <= v * t < base * p
  {
    assert (top + 1) * p == p * top + p;
    MulMonotone(top + 1, tens, p);
    MulStrict(v, tens * p, t);
    assert (tens * p) * t == (tens * t) * p;
    MulMonotone(1, top, p);
    MulCommutes(top, p);
    MulGrows(t, v);
    MulCommutes(t, v);
  }

  lemma StillFits(a: seq<int>, a': seq<int>, rdx: nat, pow: nat)
    requires Limbs(a) && a != [] && 0 <= V(a) < P(|a| - 1) && pow <= BASE_DIGS && rdx <= |a|
    requires Limbs(a') && V(a') == V(a) * Ten(pow) && rdx <= |a'| && (|a'| > rdx ==> a'[|a'| - 1] != 0)
    ensures rdx <= |a'| <= |a|
  {
    hide Val, Pow;
    PPositive(|a| - 1);
    TenAdd(pow, BASE_DIGS - pow);
    MulGrows(Ten(BASE_DIGS - pow), Ten(pow));
    MulStrict(V(a), P(|a| - 1), Ten(pow));
    MulMonotone(Ten(pow), BASE_POW, P(|a| - 1));
    MulCommutes(Ten(pow), P(|a| - 1));
    if |a'| > rdx { ShortByValue(a', |a|); }
  }

  /** bc_num_divExtend: multiply both operands by the power of ten that fills the leading limb. */
  method DivExtend(a: BcNum, b: BcNum, divisor: nat) returns (ghost t: nat)
    requires a != b && Dividend(a) && Divisor(b) && |b.num| > 0
    requires divisor == b.num[|b.num| - 1] && divisor <= SMALL_DIVISOR
    modifies a, b
    ensures t > 0 && Limbs(a.num) && V(a.num) == old(V(a.num)) * t && old(a.rdx) <= |a.num| <= old(|a.num|)
    ensures Limbs(b.num) && V(b.num) == old(V(b.num)) * t && |b.num| == old(|b.num|) && b.num[|b.num| - 1] > 0
  {
    hide Val, Pow, Holds, Ten, Gap, Rdx;
    DividendFacts(a);
    DivisorFacts(b);
    var digits := Log10(divisor);
    SmallDivisor(digits, divisor);
    var pow := BASE_DIGS - digits;
    t := Ten(pow);
    ghost var anum, ardx, amag, bnum := a.num, a.rdx, a.mag, b.num;
    MovedUp(ardx, amag, pow);
    ProductZero(amag, t);
    ProductZero(b.mag, t);
    a.ShiftLeft(pow);
    Digits3(a.num, a.rdx, a.scale, a.mag);
    StillFits(anum, a.num, ardx, pow);
    b.ShiftLeft(pow);
    DivisorFacts(b);
    SameLength(bnum, b.num, t, digits);
  }

  lemma Digits3(num: seq<int>, rdx: nat, scale: nat, mag: nat)
    requires Holds(num, rdx, scale, mag) && mag > 0
    ensures V(num) == mag * Ten(Gap(scale)) && Limbs(num) && rdx <= |num| && rdx == Rdx(scale)
  {
    EmptyValue();
    ProductZero(mag, Ten(Gap(scale)));
  }

  /** The start of bc_num_d_long: the divisor's leading limb, moved up when it would estimate badly. */
  method LeadingLimb(a: BcNum, b: BcNum) returns (divisor: nat, nonzero: bool, ghost t: nat)
    requires a != b && Dividend(a) && Divisor(b) && |b.num| < |a.num|
    modifies a, b
    ensures t > 0 && Limbs(a.num) && V(a.num) == old(V(a.num)) * t && V(b.num) == old(V(b.num)) * t
    ensures Leads(b.num, divisor, nonzero) && |b.num| < |a.num| && a.num[|a.num| - 1] == 0
    ensures old(a.rdx) <= |a.num| && |a.num| - |b.num| <= old(|a.num|)
  {
    hide Val, Pow, Holds, Ten;
    DividendFacts(a);
    DivisorFacts(b);
    var len := |b.num|;
    divisor, nonzero, t := b.num[len - 1], false, 1;
    var low := NonZeroDig(b.num[..len - 1]);
    if len > 1 && low {
      nonzero := divisor > SMALL_DIVISOR;
      if !nonzero {
        t := DivExtend(a, b, divisor);
        // the limbs above are left over from the shift, and zero
        ZerosAbove(a.num, Max(|a.num|, |b.num|) + 1 - |a.num|);
        a.num := a.num + Zeros(Max(|a.num|, |b.num|) + 1 - |a.num|);
        divisor := b.num[len - 1];
        nonzero := NonZeroDig(b.num[..len - 1]);
      }
    }
    EmptyValue();
    if nonzero {
      divisor := divisor + 1;
    }
  }

  /** bc_num_d_long. The quotient keeps only the limbs that `scale` asks for. */
  method DLong(a: BcNum, b: BcNum, scale: nat) returns (c: BcNum)
    requires a != b && Dividend(a) && Divisor(b) && |b.num| < |a.num| && scale <= a.scale
    modifies a, b
    ensures fresh(c) && c.Weak() && c.scale == old(a.scale)
    ensures Rdx(scale) <= old(a.rdx)
    ensures var p := P(old(a.rdx) - Rdx(scale)); p * old(b.mag) > 0 && c.mag == p * (old(a.mag) / (p * old(b.mag)))
  {
    hide Val, Pow, Holds, Ten, Leads, Rdx, Gap;
    var rdx, clen, cscale := a.rdx, |a.num|, a.scale;
    ghost var ma, mb := a.mag, b.mag;
    DividendFacts(a);
    DivisorFacts(b);
    WholeLimbs(rdx);
    RdxDrop(cscale, cscale - scale);
    var divisor, nonzero, t := LeadingLimb(a, b);
    var skip := rdx - Rdx(scale);
    var s := DivideLimbs(a.num, b.num, divisor, nonzero, skip, clen);
    PPositive(skip);
    SameRatio(ma, mb, t, P(skip));
    c := new BcNum();
    ValBound(s, BASE_POW);
    c.num, c.rdx, c.scale, c.mag := s, rdx, cscale, V(s);
    TenZero(V(s));
    ItHolds(s, rdx, cscale, V(s));
  }

  lemma SameRatio(a: nat, b: nat, t: nat, p: nat)
    requires b > 0 && t > 0 && p > 0
    ensures p * b > 0 && p * (b * t) > 0 && (a * t) / (p * (b * t)) == a / (p * b)
  {
    MulMonotone(1, p, b);
    CancelFactor(a, p * b, t);
    MulAssoc(p, b, t);
  }

  // --------------------------------------------------------- the whole division

  lemma RdxAdds(k: nat, scale: nat)
    ensures Rdx(k * BASE_DIGS + scale) == k + Rdx(scale)
  {
  }

  ghost predicate WholeLimbed(n: BcNum)
    reads n
  {
    n.Weak() && n.mag > 0 && n.num != [] && n.scale == n.rdx * BASE_DIGS && n.mag == V(n.num)
  }

  lemma MakeWholeLimbed(n: BcNum)
    requires Limbs(n.num) && V(n.num) == n.mag > 0 && n.rdx <= |n.num| && n.scale == n.rdx * BASE_DIGS
    ensures WholeLimbed(n)
  {
    EmptyValue();
    WholeLimbs(n.rdx);
    TenZero(n.mag);
  }

  lemma WholeLimbedFacts(n: BcNum)
    requires WholeLimbed(n)
    ensures Limbs(n.num) && V(n.num) == n.mag > 0 && n.rdx <= |n.num| && n.scale == n.rdx * BASE_DIGS
  {
  }

  /** bc_num_extend, after which the scale is taken to be whole limbs. */
  method Widen(n: BcNum, places: nat, ghost k: nat, ghost j: nat)
    requires n.Weak() && n.mag > 0
    requires places == j * BASE_DIGS || n.scale == k * BASE_DIGS
    modifies n
    ensures WholeLimbed(n) && n.rdx == old(n.rdx) + Rdx(places)
    ensures |n.num| == old(|n.num|) + Rdx(places) && V(n.num) == P(Rdx(places)) * old(V(n.num))
  {
    hide Val, Pow, Holds, Ten, Rdx, Gap;
    Digits3(n.num, n.rdx, n.scale, n.mag);
    NotEmpty(n.num, n.rdx, n.scale, n.mag);
    ghost var s := n.num;
    RdxAdds(j, n.scale);
    RdxAdds(k, places);
    WholeLimbs(j);
    WholeLimbs(k);
    ProductZero(n.mag, Ten(places));
    n.Extend(places);
    Digits3(n.num, n.rdx, n.scale, n.mag);
    ZerosBelow(Rdx(places), s);
    ProductZero(n.mag, Ten(Gap(n.scale)));
    n.scale := n.rdx * BASE_DIGS;
    n.mag := V(n.num);
    MakeWholeLimbed(n);
  }

  lemma NotEmpty(num: seq<int>, rdx: nat, scale: nat, mag: nat)
    requires Holds(num, rdx, scale, mag) && mag > 0
    ensures num != []
  {
    ZeroHolds(num, rdx, scale, mag, scale);
  }

  /** The dividend times the divisor's fraction: bc_num_extend, and the point put back. */
  method Raise(n: BcNum, places: nat)
    requires WholeLimbed(n)
    modifies n
    ensures WholeLimbed(n) && n.rdx == old(n.rdx) && V(n.num) == P(Rdx(places)) * old(V(n.num))
    ensures |n.num| == old(|n.num|) + Rdx(places)
  {
    hide Val, Pow, Rdx, WholeLimbed;
    WholeLimbedFacts(n);
    hide BcNum.Weak;
    WidenWhole(n, places);
    WholeLimbedFacts(n);
    n.rdx := n.rdx - Rdx(places);
    n.scale := n.rdx * BASE_DIGS;
    MakeWholeLimbed(n);
  }

  method WidenWhole(n: BcNum, places: nat)
    requires WholeLimbed(n)
    modifies n
    ensures WholeLimbed(n) && n.rdx == old(n.rdx) + Rdx(places)
    ensures |n.num| == old(|n.num|) + Rdx(places) && V(n.num) == P(Rdx(places)) * old(V(n.num))
  {
    Widen(n, places, n.rdx, 0);
  }

  method AppendZero(n: BcNum)
    requires WholeLimbed(n)
    modifies n
    ensures Dividend(n) && n.mag == old(n.mag) && n.rdx == old(n.rdx) && |n.num| == old(|n.num|) + 1
  {
    hide Val, Pow;
    ZerosAbove(n.num, 1);
    assert n.num + [0] == n.num + Zeros(1);
    n.num := n.num + [0];
    MakeWholeLimbed(n);
  }

  /** The dividend, widened so that the quotient gets its limbs, with a zero limb in front. */
  method DividendFor(a: BcNum, blen: nat, bscale: nat, scale: nat) returns (n: BcNum, ghost k: nat)
    requires a.Canon() && a.mag > 0
    ensures fresh(n) && Dividend(n) && |n.num| > blen && scale <= n.scale
    ensures n.rdx + Rdx(bscale) == a.rdx + k && n.mag == P(k) * V(a.num)
  {
    hide Val, Pow, Holds, Ten, Rdx, Gap, WholeLimbed;
    n := new BcNum.Copy(a);
    var j: nat := if blen > |n.num| then blen - |n.num| else 0;
    RdxAdds(j, 0);
    RdxDrop(0, 0);
    Widen(n, j * BASE_DIGS, 0, j);
    Raise(n, bscale);
    Powers(j, Rdx(bscale), V(a.num));
    k := j + Rdx(bscale);
    WholeLimbedFacts(n);
    if scale > n.scale {
      EnoughScale(n.rdx, scale);
      Powers(k, Rdx(scale), V(a.num));
      k := k + Rdx(scale);
      WidenWhole(n, scale);
      WholeLimbedFacts(n);
    }
    AppendZero(n);
  }

  lemma EnoughScale(rdx: nat, scale: nat)
    ensures (rdx + Rdx(scale)) * BASE_DIGS >= scale
  {
    assert (rdx + Rdx(scale)) * BASE_DIGS == rdx * BASE_DIGS + scale + Gap(scale);
  }

  lemma Powers(j: nat, k: nat, v: int)
    ensures P(k) * (P(j) * v) == P(j + k) * v
  {
    PowAdd(BASE_POW, j, k);
    MulCommutes(P(j), P(k));
    MulAssoc(P(k), P(j), v);
  }

  /** bc_num_nonzeroLen. */
  method NonzeroLen(s: seq<int>) returns (len: nat)
    requires Limbs(s) && V(s) > 0
    ensures 0 < len <= |s| && s[..len] == Strip(s)
  {
    hide Val, Pow, Strip;
    EmptyValue();
    StripKeeps(s);
    len := |s|;
    assert s[..len] == s;
    StripStep(s);
    while s[len - 1] == 0
      invariant 0 < len <= |s| && Strip(s[..len]) == Strip(s)
      decreases len
    {
      StripStep(s[..len]);
      assert s[..len][..len - 1] == s[..len - 1];
      StripStep(s[..len - 1]);
      len := len - 1;
    }
    StripStep(s[..len]);
  }

  /** The divisor as a whole number, without leading zeros. */
  method DivisorFor(b: BcNum) returns (n: BcNum)
    requires b.Canon() && b.mag > 0
    ensures fresh(n) && Divisor(n) && n.mag == V(b.num) && |n.num| <= |b.num|
  {
    hide Val, Pow, Holds, Ten, Rdx, Gap, Strip;
    Digits3(b.num, b.rdx, b.scale, b.mag);
    ProductZero(b.mag, Ten(Gap(b.scale)));
    n := new BcNum.Copy(b);
    StripKeeps(n.num);
    if n.rdx == |n.num| {
      var len := NonzeroLen(n.num);
      n.num := n.num[..len];
    }
    n.scale, n.rdx := 0, 0;
    n.mag := V(n.num);
    NotEmpty(b.num, b.rdx, b.scale, b.mag);
    RdxDrop(0, 0);
    TenZero(n.mag);
    ItHolds(n.num, n.rdx, n.scale, n.mag);
  }

  /** |a| / |b| in units of 10^-scale, towards zero. */
  function Quotient(ma: nat, sa: nat, mb: nat, sb: nat, scale: nat): (q: nat)
    requires mb > 0
  {
    QuotientDefined(mb, sa);
    (ma * Ten(scale + sb)) / (mb * Ten(sa))
  }

  lemma QuotientDefined(mb: nat, sa: nat)
    requires mb > 0
    ensures mb * Ten(sa) > 0
  {
    ProductZero(mb, Ten(sa));
  }

  /** The quotient is what the division truncates to: the largest multiple that fits. */
  lemma QuotientTruncates(ma: nat, sa: nat, mb: nat, sb: nat, scale: nat)
    requires mb > 0
    ensures var q := Quotient(ma, sa, mb, sb, scale);
            q * (mb * Ten(sa)) <= ma * Ten(scale + sb) < (q + 1) * (mb * Ten(sa))
  {
    hide Ten;
    QuotientDefined(mb, sa);
    Truncates(ma * Ten(scale + sb), mb * Ten(sa));
  }

  lemma Truncates(n: nat, d: nat)
    requires d > 0
    ensures (n / d) * d <= n < (n / d + 1) * d
  {
    assert n == d * (n / d) + n % d;
    assert (n / d + 1) * d == d * (n / d) + d;
  }

  /** Equal cross products give equal quotients. */
  lemma CrossRatio(x: nat, y: nat, p: nat, q: nat, p': nat, q': nat)
    requires y > 0 && q > 0 && q' > 0 && p * q' == p' * q
    ensures y * q > 0 && y * q' > 0 && (x * p) / (y * q) == (x * p') / (y * q')
  {
    MulMonotone(1, y, q);
    MulMonotone(1, y, q');
    CancelFactor(x * p, y * q, q');
    CancelFactor(x * p', y * q', q);
    assert (x * p) * q' == x * (p * q') == x * (p' * q) == (x * p') * q;
    assert (y * q) * q' == (y * q') * q;
  }

  /** The limb quotient, cut to scale, is the decimal quotient. */
  lemma LimbQuotient(ma: nat, sa: nat, mb: nat, sb: nat, scale: nat, k: nat, r: nat)
    requires mb > 0 && r + Rdx(sb) == Rdx(sa) + k && scale <= r * BASE_DIGS
    ensures var t := r * BASE_DIGS - scale;
            var vb := mb * Ten(Gap(sb));
            vb * Ten(t) > 0 && (P(k) * (ma * Ten(Gap(sa)))) / (vb * Ten(t)) == Quotient(ma, sa, mb, sb, scale)
  {
    hide Val, Pow, Rdx, Gap, Ten;
    var t := r * BASE_DIGS - scale;
    var p, q := Ten(BASE_DIGS * k + Gap(sa)), Ten(Gap(sb) + t);
    LimbsAreDigits(k);
    TenAdd(BASE_DIGS * k, Gap(sa));
    TenAdd(Gap(sb), t);
    TenAdd(BASE_DIGS * k + Gap(sa), sa);
    TenAdd(scale + sb, Gap(sb) + t);
    assert BASE_DIGS * k + Gap(sa) + sa == scale + sb + (Gap(sb) + t);
    CrossRatio(ma, mb, p, q, Ten(scale + sb), Ten(sa));
    MulAssoc(mb, Ten(Gap(sb)), Ten(t));
    MulAssoc(ma, P(k), Ten(Gap(sa)));
    MulAssoc(P(k), ma, Ten(Gap(sa)));
    MulCommutes(ma, P(k));
  }

  /** What bc_num_retireMul makes of the quotient limbs. */
  lemma Retired(va: nat, vb: nat, skip: nat, r: nat, scale: nat)
    requires vb > 0 && skip + Rdx(scale) == r && scale <= r * BASE_DIGS
    ensures var t := r * BASE_DIGS - scale;
            P(skip) * vb > 0 && vb * Ten(t) > 0
            && (P(skip) * (va / (P(skip) * vb))) / Ten(t) == va / (vb * Ten(t))
  {
    hide Val, Pow, Rdx, Gap, Ten;
    var t, p, g := r * BASE_DIGS - scale, P(skip), Ten(Gap(scale));
    PPositive(skip);
    LimbsAreDigits(skip);
    TenAdd(BASE_DIGS * skip, Gap(scale));
    assert t == BASE_DIGS * skip + Gap(scale);
    MulMonotone(1, p, vb);
    MulMonotone(1, vb, Ten(t));
    CancelFactor(va / (p * vb), g, p);
    DivDiv(va, p * vb, g);
    MulCommutes(p, vb);
    MulAssoc(vb, p, g);
    MulCommutes(p, va / (p * vb));
    MulCommutes(g, p);
  }

  method DivGeneral(a: BcNum, b: BcNum, scale: nat) returns (c: BcNum)
    requires a.Canon() && b.Canon() && a.mag > 0 && b.mag > 0
    ensures fresh(c) && c.Canon() && c.scale == scale
    ensures c.mag == Quotient(a.mag, a.scale, b.mag, b.scale, scale) && (c.mag > 0 ==> c.neg == (a.neg != b.neg))
  {
    hide Val, Pow, Holds, Ten, Rdx, Gap, Quotient, BcNum.Canon, BcNum.Weak;
    CanonFacts(a);
    CanonFacts(b);
    var n, k := DividendFor(a, |b.num|, b.scale, scale);
    var m := DivisorFor(b);
    ghost var r, va, vb := n.rdx, n.mag, m.mag;
    DividendFacts(n);
    DivideAll(n, m);
    c := DLong(n, m, scale);
    Retired(va, vb, r - Rdx(scale), r, scale);
    LimbQuotient(a.mag, a.scale, b.mag, b.scale, scale, k, r);
    TenZero(c.mag);
    c.RetireMul(scale, a.neg, b.neg);
  }

  lemma DivideAll(n: BcNum, m: BcNum)
    requires Dividend(n) && Divisor(m)
    ensures n.scale == n.rdx * BASE_DIGS && m.mag > 0
  {
  }

  lemma CanonFacts(a: BcNum)
    requires a.Canon() && a.mag > 0
    ensures a.rdx == Rdx(a.scale) && V(a.num) == a.mag * Ten(Gap(a.scale)) && a.num != []
  {
  }

  lemma QuotientByOne(ma: nat, sa: nat, scale: nat)
    ensures Quotient(ma, sa, 1, 0, scale) == if scale >= sa then ma * Ten(scale - sa) else ma / Ten(sa - scale)
  {
    hide Val, Pow, Ten;
    if scale >= sa {
      TenAdd(scale - sa, sa);
      CrossRatio(ma, 1, Ten(scale), Ten(sa), Ten(scale - sa), 1);
    } else {
      TenAdd(sa - scale, scale);
      CrossRatio(ma, 1, Ten(scale), Ten(sa), 1, Ten(sa - scale));
    }
  }

  lemma QuotientOfZero(sa: nat, mb: nat, sb: nat, scale: nat)
    requires mb > 0
    ensures Quotient(0, sa, mb, sb, scale) == 0
  {
    hide Ten;
    QuotientDefined(mb, sa);
    ZeroQuotient(0 * Ten(scale + sb), mb * Ten(sa));
  }

  /** A divisor of one whole limb. */
  lemma WholeLimbDivisor(b: BcNum)
    requires b.Canon() && |b.num| == 1 && b.rdx == 0
    ensures b.scale == 0 && b.mag == b.num[0] && 0 < b.mag < BASE_POW
  {
    RdxDrop(0, 0);
    TenZero(b.mag);
    EmptyValue();
    ValSnoc([], b.num[0], BASE_POW);
    assert b.num == [] + [b.num[0]];
  }

  /** bc_num_d when dividend and divisor are whole and the divisor is one limb. */
  method DivSingle(a: BcNum, b: BcNum) returns (c: BcNum)
    requires a.Canon() && b.Canon() && a.mag > 0 && a.rdx == 0 && b.rdx == 0 && |b.num| == 1
    ensures fresh(c) && c.Canon() && c.scale == 0
    ensures b.mag > 0 && c.mag == Quotient(a.mag, a.scale, b.mag, b.scale, 0)
    ensures c.mag > 0 ==> c.neg == (a.neg != b.neg)
  {
    hide Val, Pow, Holds;
    WholeLimbDivisor(b);
    RdxDrop(0, 0);
    Digits3(a.num, a.rdx, a.scale, a.mag);
    TenZero(a.mag);
    TenZero(b.mag);
    var s, rem := DivArray(a.num, b.num[0]);
    MulCommutes(V(s), b.num[0]);
    DivIs(a.mag, b.mag, V(s), rem);
    WholeHolds(s);
    c := new BcNum();
    c.num, c.mag := s, V(s);
    c.Clean();
    c.RetireMul(0, a.neg, b.neg);
    TenZero(V(s));
  }

  /** bc_num_d: fails on a zero divisor, and otherwise divides exactly, cut towards zero at `scale`. */
  method D(a: BcNum, b: BcNum, scale: nat) returns (ok: bool, c: BcNum)
    requires a.Canon() && b.Canon()
    ensures fresh(c) && ok == (b.mag > 0)
    ensures ok ==> c.Canon() && c.scale == scale && c.mag == Quotient(a.mag, a.scale, b.mag, b.scale, scale)
    ensures ok && c.mag > 0 ==> c.neg == (a.neg != b.neg)
    ensures ok ==> c.mag * (b.mag * Ten(a.scale)) <= a.mag * Ten(scale + b.scale) < (c.mag + 1) * (b.mag * Ten(a.scale))
  {
    hide Val, Pow, Holds, Quotient, Ten, Rdx, Gap;
    if b.mag > 0 { QuotientTruncates(a.mag, a.scale, b.mag, b.scale, scale); }
    ok := true;
    if b.num == [] {
      ok := false;
      c := new BcNum();
      return;
    }
    if a.num == [] {
      QuotientOfZero(a.scale, b.mag, b.scale, scale);
      ZeroHolds(a.num, a.rdx, a.scale, a.mag, scale);
      c := new BcNum();
      c.scale := scale;
      return;
    }
    if |b.num| == 1 && b.rdx == 0 && b.num[0] == 1 {
      WholeLimbDivisor(b);
      QuotientByOne(a.mag, a.scale, scale);
      c := new BcNum.Copy(a);
      c.RetireMul(scale, a.neg, b.neg);
      return;
    }
    if a.rdx == 0 && b.rdx == 0 && |b.num| == 1 && scale == 0 {
      c := DivSingle(a, b);
      return;
    }
    c := DivGeneral(a, b, scale);
  }
}
