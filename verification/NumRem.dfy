/** Remainder and modular power: bc_num_r, bc_num_rem, bc_num_modexp. */
module NumRem {
  import opened Positional
  import opened NumKernel
  import opened Num
  import opened NumAdd
  import opened NumMul
  import opened NumDiv

  /** At the remainder's scale, the dividend lies between two neighbouring multiples. */
  lemma Between(ma: nat, sa: nat, mb: nat, sb: nat, scale: nat, ts: nat)
    requires mb > 0 && ts >= sa && ts >= scale + sb
    ensures var q, t := Quotient(ma, sa, mb, sb, scale), Ten(ts - (scale + sb));
            (q * mb) * t <= ma * Ten(ts - sa) < (q * mb) * t + mb * t
  {
    hide Ten, Quotient;
    var q := Quotient(ma, sa, mb, sb, scale);
    var e, f := ts - (scale + sb), ts - sa;
    QuotientTruncates(ma, sa, mb, sb, scale);
    TenAdd(sa, f);
    TenAdd(scale + sb, e);
    BetweenAlgebra(ma, mb, q, Ten(scale + sb), Ten(sa), Ten(e), Ten(f), Ten(ts));
  }

  lemma BetweenAlgebra(ma: nat, mb: nat, q: nat, p: nat, r: nat, e: nat, f: nat, t: nat)
    requires p > 0 && r > 0 && e > 0 && f > 0 && t > 0 && r * f == t && p * e == t
    requires q * (mb * r) <= ma * p < (q + 1) * (mb * r)
    ensures (q * mb) * e <= ma * f < (q * mb) * e + mb * e
  {
    MulMonotone(1, e, f);
    Scaled(q * (mb * r), ma * p, e * f);
    ScaledStrict(ma * p, (q + 1) * (mb * r), e * f);
    assert (q * (mb * r)) * (e * f) == ((q * mb) * e) * (r * f);
    assert (ma * p) * (e * f) == (ma * f) * (p * e);
    assert ((q + 1) * (mb * r)) * (e * f) == ((q * mb) * e + mb * e) * (r * f);
    Unscaled((q * mb) * e, ma * f, t);
    UnscaledStrict(ma * f, (q * mb) * e + mb * e, t);
  }

  lemma Scaled(x: int, y: int, t: int)
    requires x <= y && t >= 0
    ensures x * t <= y * t
  {
  }

  lemma ScaledStrict(x: int, y: int, t: int)
    requires x < y && t > 0
    ensures x * t < y * t
  {
  }

  lemma Unscaled(x: int, y: int, t: int)
    requires t > 0
    ensures x * t <= y * t ==> x <= y
  {
    if x > y { ScaledStrict(y, x, t); }
  }

  lemma UnscaledStrict(x: int, y: int, t: int)
    requires t > 0
    ensures x * t < y * t ==> x < y
  {
    if x >= y { Scaled(y, x, t); }
  }

  /** A product at a scale that cuts nothing off. */
  method ExactProduct(a: BcNum, b: BcNum, scale: nat) returns (c: BcNum)
    requires a.Canon() && b.Canon() && MulScale(a.scale, b.scale, scale) == a.scale + b.scale
    ensures fresh(c) && c.Canon() && c.mag == a.mag * b.mag && (c.mag > 0 ==> c.neg == (a.neg != b.neg))
    ensures c.scale <= a.scale + b.scale && (c.mag > 0 ==> c.scale == a.scale + b.scale)
  {
    hide Val, Pow, Ten, Holds;
    c := M(a, b, scale);
    TenZero(a.mag * b.mag);
    OneLimbScale(a);
    OneLimbScale(b);
    ZeroFactor(a.mag, b.mag);
  }

  lemma ZeroFactor(x: nat, y: nat)
    ensures x * y > 0 ==> x > 0 && y > 0
    ensures x > 0 && y > 0 ==> x * y > 0
  {
    if x > 0 && y > 0 { MulMonotone(1, x, y); }
  }

  lemma OneLimbScale(a: BcNum)
    requires a.Canon()
    ensures a.mag > 0 && a.rdx == 0 ==> a.scale == 0
  {
  }

  lemma AtLarger(n: BcNum, s: nat, t: nat)
    requires n.scale <= s <= t
    ensures n.At(t) == n.At(s) * Ten(t - s)
  {
    TenAdd(s - n.scale, t - s);
    MulAssoc(n.mag, Ten(s - n.scale), Ten(t - s));
    SignedTimes(n.neg, n.mag * Ten(s - n.scale), Ten(t - s));
  }

  lemma SignedTimes(neg: bool, m: int, t: int)
    ensures Signed(neg, m * t) == Signed(neg, m) * t
  {
    assert -m * t == -(m * t);
  }

  /** The end of bc_num_r: bring the remainder to its scale, keeping its own sign. */
  method ToScale(d: BcNum, ts: nat, neg1: bool, neg2: bool)
    requires d.Canon() && d.scale <= ts
    modifies d
    ensures d.Canon() && d.scale == ts && Signed(d.neg, d.mag) == old(d.At(ts))
  {
    hide Val, Pow, Ten, Holds;
    TenZero(d.mag * Ten(ts - d.scale));
    TenZero(d.mag);
    ZeroFactor(d.mag, Ten(ts - d.scale));
    var neg0 := d.neg;
    if ts > d.scale && d.num != [] {
      d.Extend(ts - d.scale);
    }
    var neg := d.neg;
    d.RetireMul(ts, neg1, neg2);
    d.neg := if d.num != [] then neg else false;
  }

  /** What bc_num_r leaves: a == quotient * b + d exactly, with d between zero and b and signed like a. */
  ghost predicate Remainder(a: BcNum, b: BcNum, d: BcNum, scale: nat, ts: nat)
    requires b.mag > 0 && ts >= scale + b.scale && ts >= a.scale
    reads a, b, d
  {
    var t := Ten(ts - (scale + b.scale));
    var q := Quotient(a.mag, a.scale, b.mag, b.scale, scale);
    && d.Canon() && d.scale == ts && (d.mag > 0 ==> d.neg == a.neg)
    && a.mag * Ten(ts - a.scale) == (q * b.mag) * t + d.mag && d.mag < b.mag * t
  }

  lemma RestSign(aneg: bool, tneg: bool, x: int, y: int, dneg: bool, d: int)
    requires d >= 0 && 0 <= y <= x && (y > 0 ==> tneg == aneg)
    requires Signed(dneg, d) == Signed(aneg, x) - Signed(tneg, y)
    ensures d == x - y && (d > 0 ==> dneg == aneg)
  {
  }

  /** a - b, brought to the remainder's scale. */
  method SubtractAt(a: BcNum, b: BcNum, ts: nat, neg1: bool, neg2: bool) returns (d: BcNum)
    requires a.Canon() && b.Canon() && a.scale <= ts && b.scale <= ts
    ensures fresh(d) && d.Canon() && d.scale == ts && Signed(d.neg, d.mag) == a.At(ts) - b.At(ts)
  {
    hide Val, Pow, Ten, Holds;
    ghost var S := Max(a.scale, b.scale);
    AtLarger(a, S, ts);
    AtLarger(b, S, ts);
    d := As(a, b, true);
    AtLarger(d, S, ts);
    DifferenceScaled(d.At(S), a.At(S), b.At(S), Ten(ts - S));
    ToScale(d, ts, neg1, neg2);
  }

  /** The remainder once the quotient is known. */
  method RestOf(a: BcNum, b: BcNum, c: BcNum, scale: nat, ts: nat) returns (d: BcNum)
    requires a.Canon() && b.Canon() && c.Canon() && a.mag > 0 && b.mag > 0
    requires c.scale == scale && ts == Max(scale + b.scale, a.scale)
    requires c.mag == Quotient(a.mag, a.scale, b.mag, b.scale, scale) && (c.mag > 0 ==> c.neg == (a.neg != b.neg))
    ensures fresh(d) && Remainder(a, b, d, scale, ts)
  {
    hide Val, Pow, Ten, Holds, Quotient;
    Between(a.mag, a.scale, b.mag, b.scale, scale, ts);
    ZeroFactor(c.mag, b.mag);
    var temp := ExactProduct(c, b, if scale > 0 then ts + 1 else 0);
    ProductZero(temp.mag, Ten(ts - (scale + b.scale)));
    ProductZero(temp.mag, Ten(ts - temp.scale));
    d := SubtractAt(a, temp, ts, a.neg, b.neg);
    RestSign(a.neg, temp.neg, a.mag * Ten(ts - a.scale), temp.mag * Ten(ts - temp.scale), d.neg, d.mag);
  }

  lemma DifferenceScaled(d: int, a: int, b: int, t: int)
    requires d == a + Dir(true) * b
    ensures d * t == a * t - b * t
  {
  }

  /** bc_num_r. */
  method R(a: BcNum, b: BcNum, scale: nat, ts: nat) returns (ok: bool, c: BcNum, d: BcNum)
    requires a.Canon() && b.Canon() && ts == Max(scale + b.scale, a.scale)
    ensures fresh(c) && fresh(d) && c != d && ok == (b.mag > 0)
    ensures ok ==> Remainder(a, b, d, scale, ts)
    ensures ok ==> c.Canon() && c.scale == (if a.mag == 0 then ts else scale)
                   && c.mag == Quotient(a.mag, a.scale, b.mag, b.scale, scale)
                   && (c.mag > 0 ==> c.neg == (a.neg != b.neg))
  {
    hide Val, Pow, Ten, Holds, Quotient;
    if b.num == [] {
      ok := false;
      c := new BcNum();
      d := new BcNum();
      return;
    }
    if a.num == [] {
      ok := true;
      c := new BcNum();
      d := new BcNum();
      c.scale, d.scale := ts, ts;
      ZeroHolds([], 0, 0, 0, ts);
      QuotientOfZero(a.scale, b.mag, b.scale, scale);
      ProductZero(b.mag, Ten(ts - (scale + b.scale)));
      assert 0 * b.mag == 0;
      return;
    }
    ok, c := D(a, b, scale);
    d := RestOf(a, b, c, scale, ts);
  }

  /** bc_num_rem. */
  method Rem(a: BcNum, b: BcNum, scale: nat) returns (ok: bool, d: BcNum)
    requires a.Canon() && b.Canon()
    ensures fresh(d) && ok == (b.mag > 0)
    ensures ok ==> Remainder(a, b, d, scale, Max(scale + b.scale, a.scale))
  {
    var c;
    ok, c, d := R(a, b, scale, Max(scale + b.scale, a.scale));
  }
}
