/** The number record of bc/num.c and the operations that rewrite it in place: clean, truncate, extend,
    the exact decimal shifts and retireMul. A number is `mag` units of 10^-scale; `mag` is the
    specification's view of the limbs. */
module Num {
  import opened Positional
  import opened NumKernel

  /** Limbs needed for a scale: BC_NUM_RDX. */
  function Rdx(scale: nat): nat {
    (scale + (BASE_DIGS - 1)) / BASE_DIGS
  }

  /** Low decimal digits of the lowest limb that the scale leaves unused. */
  function Gap(scale: nat): (g: nat)
    ensures g < BASE_DIGS && Rdx(scale) * BASE_DIGS == scale + g
  {
    Rdx(scale) * BASE_DIGS - scale
  }

  /** How the code computes the gap. */
  lemma GapMod(scale: nat)
    ensures Gap(scale) == if scale % BASE_DIGS == 0 then 0 else BASE_DIGS - scale % BASE_DIGS
  {
  }

  lemma RdxDrop(scale: nat, places: nat)
    requires places <= scale
    ensures Rdx(scale - places) <= Rdx(scale)
    ensures BASE_DIGS * (Rdx(scale) - Rdx(scale - places)) + Gap(scale - places) == places + Gap(scale)
    ensures Rdx(0) == 0 && Gap(0) == 0
  {
  }

  function Ten(n: nat): (p: nat)
    ensures p > 0
  {
    Pow(10, n)
  }

  lemma TenAdd(m: nat, n: nat)
    ensures Ten(m + n) == Ten(m) * Ten(n)
  {
    PowAdd(10, m, n);
  }

  lemma LimbsAreDigits(n: nat)
    ensures P(n) == Ten(BASE_DIGS * n)
  {
    PowMul(10, BASE_DIGS, n);
  }

  function Max(a: int, b: int): int {
    if a >= b then a else b
  }

  function Signed(neg: bool, m: int): int {
    if neg then -m else m
  }

  // -------------------------------------------------- limb vectors, on values

  /** Without leading zero limbs. */
  function Strip(s: seq<int>): (r: seq<int>)
    ensures r <= s && (r != [] ==> r[|r| - 1] != 0)
  {
    if s != [] && s[|s| - 1] == 0 then Strip(s[..|s| - 1]) else s
  }

  lemma {:induction false} StripKeeps(s: seq<int>)
    requires Limbs(s)
    ensures Limbs(Strip(s)) && V(Strip(s)) == V(s) && (Strip(s) == [] <==> V(s) == 0)
    ensures s[|Strip(s)|..] == Zeros(|s| - |Strip(s)|)
  {
    hide Val, Pow;
    EmptyValue();
    if s != [] {
      var n := |s| - 1;
      if s[n] == 0 {
        StripKeeps(s[..n]);
        TopZero(s);
        assert Strip(s) == Strip(s[..n]);
        ZerosGrow(s, |Strip(s)|);
      } else {
        ValPositive(s, n, BASE_POW);
      }
    }
  }

  lemma TopZero(s: seq<int>)
    requires s != [] && s[|s| - 1] == 0
    ensures V(s) == V(s[..|s| - 1])
  {
    ValSnoc(s[..|s| - 1], 0, BASE_POW);
    assert s == s[..|s| - 1] + [0];
  }

  lemma ZerosGrow(s: seq<int>, k: nat)
    requires k < |s| && s[|s| - 1] == 0 && s[..|s| - 1][k..] == Zeros(|s| - 1 - k)
    ensures s[k..] == Zeros(|s| - k)
  {
    assert s[k..] == s[..|s| - 1][k..] + [0];
  }

  function Zeros(n: nat): seq<int> {
    seq(n, _ => 0)
  }

  lemma ZerosBelow(n: nat, s: seq<int>)
    requires Limbs(s)
    ensures Limbs(Zeros(n) + s) && V(Zeros(n) + s) == P(n) * V(s)
  {
    PPositive(0);
    ValAppend(Zeros(n), s, BASE_POW);
    ValZeros(Zeros(n), BASE_POW);
  }

  lemma ZerosAbove(s: seq<int>, n: nat)
    requires Limbs(s)
    ensures Limbs(s + Zeros(n)) && V(s + Zeros(n)) == V(s)
  {
    PPositive(0);
    ValAppend(s, Zeros(n), BASE_POW);
    ValZeros(Zeros(n), BASE_POW);
  }

  /** What bc_num_clean leaves of a limb vector with rdx fraction limbs. */
  function Trim(s: seq<int>, rdx: nat): (t: seq<int>)
    requires rdx <= |s|
    ensures t <= s && (t == [] || rdx <= |t|) && (|t| > rdx ==> t[|t| - 1] != 0)
  {
    var t := Strip(s);
    if t == [] then [] else if |t| < rdx then s[..rdx] else t
  }

  lemma TrimKeeps(s: seq<int>, rdx: nat)
    requires Limbs(s) && rdx <= |s|
    ensures Limbs(Trim(s, rdx)) && V(Trim(s, rdx)) == V(s) && (Trim(s, rdx) == [] <==> V(s) == 0)
  {
    hide Val, Pow, Strip;
    var t := Strip(s);
    StripKeeps(s);
    if t != [] && |t| < rdx {
      assert s[|t|..rdx] == s[|t|..][..rdx - |t|];
      assert s[..rdx] == t + Zeros(rdx - |t|);
      ZerosAbove(t, rdx - |t|);
    }
  }

  /** A vector without leading zeros is no longer than its value needs. */
  lemma ShortByValue(s: seq<int>, n: nat)
    requires Limbs(s) && V(s) < P(n) && (s != [] ==> s[|s| - 1] != 0)
    ensures |s| <= n
  {
    hide Val, Pow;
    if |s| > n {
      var k := |s| - 1;
      PPositive(0);
      ValPrefix(s, k, BASE_POW);
      assert s[..k + 1] == s;
      ValBound(s[..k], BASE_POW);
      PowMonotone(BASE_POW, n, k);
      MulGrows(s[k], P(k));
    }
  }

  /** The limbs hold `mag` units of 10^-scale, perhaps with leading zeros. */
  ghost predicate Holds(num: seq<int>, rdx: nat, scale: nat, mag: nat) {
    && Limbs(num) && rdx <= |num| && rdx == (if num == [] then 0 else Rdx(scale))
    && V(num) == mag * Ten(Gap(scale))
  }

  lemma HoldsTrimmed(num: seq<int>, rdx: nat, scale: nat, mag: nat)
    requires Holds(num, rdx, scale, mag)
    ensures var t := Trim(num, rdx);
            Holds(t, if t == [] then 0 else rdx, scale, mag) && (t == [] <==> mag == 0)
  {
    TrimKeeps(num, rdx);
    ProductZero(mag, Ten(Gap(scale)));
  }

  lemma WholeHolds(s: seq<int>)
    requires Limbs(s)
    ensures V(s) >= 0 && Holds(s, 0, 0, V(s))
  {
    RdxDrop(0, 0);
    PPositive(0);
    ValBound(s, BASE_POW);
    TenZero(V(s));
  }

  lemma ProductZero(m: nat, t: nat)
    requires t > 0
    ensures m * t == 0 <==> m == 0
  {
    if m > 0 { MulGrows(m, t); }
  }

  // ------------------------------------------------------ truncate, on values

  lemma TruncateAlgebra(mag: nat, tp: nat, tg: nat, lo: int, p: int, h: int, t: int, k: int)
    requires mag * tg == lo + p * (h + t * k) && p * t == tp * tg && tp > 0 && tg > 0
    requires 0 <= lo < p && 0 <= h < t
    ensures k == mag / tp
  {
    var q, rem := mag / tp, mag % tp;
    assert mag * tg == rem * tg + (tp * tg) * q by { assert mag == q * tp + rem; }
    MulStrict(rem, tp, tg);
    MulMonotone(0, rem, tg);
    DigitBound(lo, h, t, p);
    assert p * (h + t * k) == p * h + (p * t) * k;
    SameQuotient(rem * tg, q, lo + p * h, k, tp * tg);
  }

  /** Clearing the low decimal digits of the lowest limb rounds the value down to a multiple. */
  lemma ClearLow(s: seq<int>, dig: nat)
    requires Limbs(s) && s != [] && dig < BASE_DIGS
    ensures var t, up := Ten(dig), Ten(BASE_DIGS - dig);
            var k := s[0] / t + up * V(s[1..]);
            var s' := s[0 := s[0] - s[0] % t];
            Limbs(s') && V(s') == t * k && V(s) == s[0] % t + t * k && 0 <= s[0] % t < t
  {
    var t, up := Ten(dig), Ten(BASE_DIGS - dig);
    TenAdd(dig, BASE_DIGS - dig);
    var s' := s[0 := s[0] - s[0] % t];
    assert s'[1..] == s[1..];
    ClearDigit(s[0], t);
    ClearAlgebra(s[0], t, up, V(s[1..]));
  }

  lemma ClearDigit(x: int, t: int)
    requires x >= 0 && t > 0
    ensures 0 <= x - x % t <= x && 0 <= x % t < t && x == x % t + t * (x / t)
  {
    MulMonotone(0, x / t, t);
  }

  lemma ClearAlgebra(x: int, t: int, up: int, v: int)
    requires t > 0
    ensures x - x % t + (t * up) * v == t * (x / t + up * v)
  {
    assert x == x % t + t * (x / t);
    MulAssoc(t, up, v);
  }

  lemma MulCommutes(x: int, y: int)
    ensures x * y == y * x
  {
  }

  lemma TruncateLimbs(num: seq<int>, r: nat, g: nat, g': nat, mag: nat, places: nat)
    requires Limbs(num) && r <= |num| && V(num) == mag * Ten(g)
    requires BASE_DIGS * r + g' == places + g && g' < BASE_DIGS
    ensures r == |num| ==> mag / Ten(places) == 0
    ensures r < |num| ==> var hi := num[r..];
                          var low := hi[0 := hi[0] - hi[0] % Ten(g')];
                          Limbs(low) && V(low) == (mag / Ten(places)) * Ten(g')
  {
    hide Val, Pow, Ten;
    var lo, hi, tp, tg, t := num[..r], num[r..], Ten(places), Ten(g), Ten(g');
    PPositive(r);
    ValSplit(num, r, BASE_POW);
    ValBound(lo, BASE_POW);
    LimbsAreDigits(r);
    TenAdd(BASE_DIGS * r, g');
    TenAdd(places, g);
    if hi == [] {
      EmptyValue();
      TruncateAlgebra(mag, tp, tg, V(lo), P(r), 0, t, 0);
    } else {
      var k := hi[0] / t + Ten(BASE_DIGS - g') * V(hi[1..]);
      ClearLow(hi, g');
      TruncateAlgebra(mag, tp, tg, V(lo), P(r), hi[0] % t, t, k);
      MulCommutes(k, t);
    }
  }

  /** The limbs of a truncated number. */
  function Cut(num: seq<int>, drop: nat, pow: nat): (r: seq<int>)
    requires drop <= |num| && pow > 0
    ensures |r| == |num| - drop
  {
    var s := num[drop..];
    if s == [] then [] else s[0 := s[0] - s[0] % pow]
  }

  /** The cut limbs hold the cut value. */
  ghost predicate CutHolds(num: seq<int>, drop: nat, rdx: nat, scale: nat, mag: nat, places: nat)
    requires drop <= |num|
  {
    Holds(Cut(num, drop, Ten(Gap(scale))), rdx, scale, mag / Ten(places))
  }

  lemma TruncateHolds(num: seq<int>, rdx: nat, scale: nat, mag: nat, places: nat)
    requires Holds(num, rdx, scale, mag) && num != [] && places <= scale
    ensures Rdx(scale - places) <= rdx <= |num|
    ensures CutHolds(num, rdx - Rdx(scale - places), Rdx(scale - places), scale - places, mag, places)
  {
    hide Val, Pow, Rdx, Gap;
    RdxDrop(scale, places);
    EmptyValue();
    TruncateLimbs(num, rdx - Rdx(scale - places), Gap(scale), Gap(scale - places), mag, places);
  }

  // ---------------------------------------------- extend and shifts, on values

  /** Putting zero limbs below scales the value by a power of ten. */
  lemma PadValue(num: seq<int>, k: nat, mag: nat, g: nat)
    requires Limbs(num) && V(num) == mag * Ten(g)
    ensures Limbs(Zeros(k) + num) && V(Zeros(k) + num) == mag * Ten(BASE_DIGS * k + g)
  {
    hide Val, Pow, Ten;
    ZerosBelow(k, num);
    LimbsAreDigits(k);
    TenAdd(BASE_DIGS * k, g);
    MulAssoc(mag, Ten(BASE_DIGS * k), Ten(g));
    MulAssoc(P(k), mag, Ten(g));
    MulAssoc(mag, P(k), Ten(g));
    MulCommutes(mag, P(k));
  }

  lemma SplitTen(mag: nat, up: nat, g: nat)
    ensures mag * Ten(up + g) == (mag * Ten(up)) * Ten(g)
  {
    TenAdd(up, g);
    MulAssoc(mag, Ten(up), Ten(g));
  }

  lemma ExtendHolds(num: seq<int>, rdx: nat, scale: nat, mag: nat, places: nat)
    requires Holds(num, rdx, scale, mag) && num != []
    ensures var rdx' := Rdx(places + scale);
            rdx' >= rdx && Holds(Zeros(rdx' - rdx) + num, rdx', places + scale, mag * Ten(places))
  {
    hide Val, Pow, Rdx, Gap, Ten;
    RdxDrop(places + scale, places);
    var grow := Rdx(places + scale) - rdx;
    PadValue(num, grow, mag, Gap(scale));
    SplitTen(mag, places, Gap(places + scale));
  }

  /** How many zero limbs bc_num_shiftLeft puts below before it moves digits within limbs. */
  function LeftLimbs(scale: nat, places: nat): nat {
    var rdx, k, dig := Rdx(scale), Rdx(places), places % BASE_DIGS;
    if scale == 0 then k
    else if rdx < k then k - rdx
    else
      var mod := if scale % BASE_DIGS == 0 then BASE_DIGS else scale % BASE_DIGS;
      var revdig := if dig == 0 then 0 else BASE_DIGS - dig;
      if mod + revdig > BASE_DIGS then 1 else 0
  }

  function Minus(a: nat, b: nat): nat {
    if a >= b then a - b else 0
  }

  lemma LeftExponent(scale: nat, places: nat)
    ensures BASE_DIGS * LeftLimbs(scale, places) + Gap(scale)
         == Minus(places, scale) + Gap(Minus(scale, places)) + Gap(places)
    ensures Rdx(Minus(scale, places)) <= Rdx(scale)
  {
    GapMod(scale);
    GapMod(places);
    RdxDrop(0, 0);
    if scale > 0 && Rdx(scale) >= Rdx(places) { SameLimb(scale, places); }
    hide Rdx, Gap;
    if places < scale { RdxDrop(scale, places); }
  }

  /** Dropping no more places than the fraction's limbs hold: the exponent stays within one limb. */
  lemma SameLimb(scale: nat, places: nat)
    requires Rdx(scale) >= Rdx(places)
    ensures Gap(scale) - Gap(places) + (if Gap(places) > Gap(scale) then BASE_DIGS else 0)
         == Minus(places, scale) + Gap(Minus(scale, places))
  {
    hide Rdx, Gap;
    if places < scale { RdxDrop(scale, places); } else { RdxDrop(0, 0); }
    if WIDE {} else {}
  }

  lemma LeftHolds(num: seq<int>, rdx: nat, scale: nat, mag: nat, places: nat)
    requires Holds(num, rdx, scale, mag) && num != []
    ensures var s := Zeros(LeftLimbs(scale, places)) + num;
            var mag' := mag * Ten(Minus(places, scale));
            var scale' := Minus(scale, places);
            Limbs(s) && V(s) == (mag' * Ten(Gap(scale'))) * Ten(Gap(places)) && Rdx(scale') <= |s|
  {
    hide Val, Pow, Rdx, Gap, Ten;
    var up, scale' := Minus(places, scale), Minus(scale, places);
    LeftExponent(scale, places);
    PadValue(num, LeftLimbs(scale, places), mag, Gap(scale));
    SplitTen(mag, up + Gap(scale'), Gap(places));
    SplitTen(mag, up, Gap(scale'));
  }

  /** How many zero limbs bc_num_shiftRight puts below, and how many on top. */
  function RightLimbs(scale: nat, places: nat): nat {
    var mod := if scale % BASE_DIGS == 0 then BASE_DIGS else scale % BASE_DIGS;
    if mod + places % BASE_DIGS > BASE_DIGS then 1 else 0
  }

  function RightRoom(scale: nat, places: nat, whole: nat): nat {
    Minus(Rdx(places) - RightLimbs(scale, places), whole)
  }

  lemma RightExponent(scale: nat, places: nat)
    ensures BASE_DIGS * RightLimbs(scale, places) + Gap(scale) == Gap(scale + places) + places % BASE_DIGS
    ensures RightLimbs(scale, places) <= Rdx(places)
    ensures Rdx(scale + places) <= Rdx(scale) + Rdx(places)
  {
    GapMod(scale);
    GapMod(places);
    RightArith(BASE_DIGS, scale, places, Rdx(scale), Gap(scale), Rdx(places), Gap(places), Rdx(scale + places),
               Gap(scale + places), places % BASE_DIGS);
  }

  lemma RightArith(d: nat, scale: nat, places: nat, r: nat, g: nat, k: nat, gp: nat, r': nat, g': nat, dig: nat)
    requires (d == 4 || d == 9) && g < d && gp < d && g' < d && dig < d
    requires r * d == scale + g && k * d == places + gp && r' * d == scale + places + g'
    requires gp == if dig == 0 then 0 else d - dig
    ensures (if dig > g then d else 0) + g == g' + dig && (dig > g ==> k > 0) && r' <= r + k
  {
    if d == 4 {} else {}
  }

  lemma RightHolds(num: seq<int>, rdx: nat, scale: nat, mag: nat, places: nat)
    requires Holds(num, rdx, scale, mag) && num != []
    ensures RightLimbs(scale, places) <= Rdx(places)
    ensures var s := Zeros(RightLimbs(scale, places)) + num + Zeros(RightRoom(scale, places, |num| - rdx));
            Limbs(s) && Rdx(scale + places) <= |s|
            && V(s) == (mag * Ten(Gap(scale + places))) * Ten(places % BASE_DIGS)
  {
    hide Val, Pow, Rdx, Gap, Ten, RightLimbs;
    RightExponent(scale, places);
    PadValue(num, RightLimbs(scale, places), mag, Gap(scale));
    ZerosAbove(Zeros(RightLimbs(scale, places)) + num, RightRoom(scale, places, |num| - rdx));
    SplitTen(mag, Gap(scale + places), places % BASE_DIGS);
  }

  class BcNum {
    var num: seq<int>
    var rdx: nat
    var scale: nat
    var neg: bool
    // the number's value in units of 10^-scale
    ghost var mag: nat

    ghost predicate Weak()
      reads `num, `rdx, `scale, `mag, `neg
    {
      Holds(num, rdx, scale, mag) && (num == [] ==> !neg)
    }

    /** The canonical form: no leading zero limb in the integer part, zero without limbs or sign. */
    ghost predicate Canon()
      reads `num, `rdx, `scale, `mag, `neg
    {
      && Weak() && (mag == 0 ==> !neg) && (num == [] <==> mag == 0)
      && (|num| > rdx ==> num[|num| - 1] != 0)
    }

    /** The value as a whole number of units of 10^-places. */
    ghost function At(places: nat): int
      requires places >= scale
      reads `scale, `mag, `neg
    {
      Signed(neg, mag * Ten(places - scale))
    }

    /** bc_num_zero. */
    constructor ()
      ensures num == [] && rdx == 0 && scale == 0 && !neg && mag == 0 && Canon()
    {
      num, rdx, scale, neg, mag := [], 0, 0, false, 0;
    }

    /** bc_num_createCopy. */
    constructor Copy(n: BcNum)
      ensures num == n.num && rdx == n.rdx && scale == n.scale && neg == n.neg && mag == n.mag
    {
      num, rdx, scale, neg, mag := n.num, n.rdx, n.scale, n.neg, n.mag;
    }

    /** The loop of bc_num_clean. */
    method DropZeros()
      modifies `num
      ensures num == Strip(old(num))
    {
      hide Strip;
      ghost var s := num;
      while num != [] && num[|num| - 1] == 0
        invariant num <= s && Strip(num) == Strip(s)
      {
        StripStep(num);
        num := num[..|num| - 1];
      }
      StripStep(num);
    }

    /** bc_num_clean: drop leading zero limbs, but none of the fraction's. */
    method Clean()
      requires rdx <= |num|
      modifies `num, `rdx, `neg
      ensures num == Trim(old(num), old(rdx))
      ensures if num == [] then rdx == 0 && !neg else rdx == old(rdx) && neg == old(neg)
      ensures old(Holds(num, rdx, scale, mag)) ==> Canon()
    {
      hide Strip, Holds, Val, Pow;
      var s := num;
      if Holds(num, rdx, scale, mag) { HoldsTrimmed(num, rdx, scale, mag); }
      DropZeros();
      if num == [] {
        neg := false;
        rdx := 0;
      } else if |num| < rdx {
        // the limbs up to rdx are still there
        num := num + s[|num|..rdx];
      }
    }

    /** bc_num_truncate: drop fraction digits, towards zero. */
    method Truncate(places: nat)
      requires Weak() && places <= scale
      modifies this
      ensures Weak() && (places > 0 || old(Canon()) ==> Canon()) && (mag > 0 ==> neg == old(neg))
      ensures scale == old(scale) - places && mag == old(mag) / Ten(places)
    {
      hide Val, Pow, Trim, Rdx, Gap, Cut, Holds, Ten;
      if places == 0 {
        TenZero(mag);
        return;
      }
      ZeroQuotient(mag, Ten(places));
      ZeroHolds(num, rdx, scale, mag, scale - places);
      var drop := if rdx > 0 then rdx - Rdx(scale - places) else 0;
      if num != [] { TruncateHolds(num, rdx, scale, mag, places); }
      mag := mag / Ten(places);
      scale := scale - places;
      rdx := rdx - drop;
      if num != [] {
        GapMod(scale);
        num := Cut(num, drop, Ten(if scale % BASE_DIGS == 0 then 0 else BASE_DIGS - scale % BASE_DIGS));
        Clean();
      }
    }

    /** bc_num_extend: append fraction zeros. */
    method Extend(places: nat)
      requires Weak()
      modifies `num, `rdx, `scale, `mag
      ensures Weak() && (old(Canon()) ==> Canon())
      ensures scale == old(scale) + places && mag == old(mag) * Ten(places)
      ensures old(num) != [] ==> rdx >= old(rdx) && num == Zeros(rdx - old(rdx)) + old(num)
    {
      hide Val, Pow, Rdx, Gap, Ten, Holds;
      TenZero(mag);
      if places == 0 {
        assert num == Zeros(0) + num;
        return;
      }
      ZeroHolds(num, rdx, scale, mag, scale + places);
      ProductZero(mag, Ten(places));
      if num == [] {
        mag := mag * Ten(places);
        scale := scale + places;
        return;
      }
      ExtendHolds(num, rdx, scale, mag, places);
      mag := mag * Ten(places);
      var grow := Rdx(places + scale) - rdx;
      var s := if grow > 0 then Zeros(grow) + num else num;
      assert s == Zeros(grow) + num;
      num := s;
      rdx := rdx + grow;
      scale := scale + places;
    }

    /** bc_num_shiftLeft: times 10^places, dropping fraction digits' places first. */
    method ShiftLeft(places: nat)
      requires Weak()
      modifies this
      ensures Weak() && (places > 0 || old(Canon()) ==> Canon()) && (mag > 0 ==> neg == old(neg))
      ensures scale == Minus(old(scale), places) && mag == old(mag) * Ten(Minus(places, old(scale)))
    {
      hide Val, Pow, Rdx, Gap, Holds, LeftLimbs;
      TenZero(mag);
      if places == 0 { return; }
      ghost var mag' := mag * Ten(Minus(places, scale));
      ZeroHolds(num, rdx, scale, mag, Minus(scale, places));
      ProductZero(mag, Ten(Minus(places, scale)));
      if num == [] {
        mag := mag';
        scale := Minus(scale, places);
        return;
      }
      LeftHolds(num, rdx, scale, mag, places);
      var dig := places % BASE_DIGS;
      var s := Zeros(LeftLimbs(scale, places)) + num;
      scale := Minus(scale, places);
      rdx := Rdx(scale);
      ghost var q := mag' * Ten(Gap(scale));
      GapMod(places);
      TenZero(q);
      if dig != 0 { s := ShiftDigits(s, BASE_DIGS - dig, q); }
      num := s;
      mag := mag';
      ItHolds(num, rdx, scale, mag);
      Clean();
    }

    /** bc_num_shiftRight: divide by 10^places by moving the point; no digit is lost. */
    method ShiftRight(places: nat)
      requires Weak()
      modifies this
      ensures Weak() && (places > 0 || old(Canon()) ==> Canon()) && (mag > 0 ==> neg == old(neg))
      ensures scale == old(scale) + places && mag == old(mag)
    {
      hide Val, Pow, Rdx, Gap, Holds, RightLimbs, RightRoom;
      if places == 0 { return; }
      ZeroHolds(num, rdx, scale, mag, scale + places);
      if num == [] {
        scale := scale + places;
        return;
      }
      RightHolds(num, rdx, scale, mag, places);
      var dig := places % BASE_DIGS;
      var s := Zeros(RightLimbs(scale, places)) + num + Zeros(RightRoom(scale, places, |num| - rdx));
      scale := scale + places;
      rdx := Rdx(scale);
      ghost var q := mag * Ten(Gap(scale));
      TenZero(q);
      if dig != 0 { s := ShiftDigits(s, dig, q); }
      num := s;
      ItHolds(num, rdx, scale, mag);
      Clean();
    }

    /** bc_num_retireMul: bring a product or quotient to its final scale and sign. */
    method RetireMul(places: nat, neg1: bool, neg2: bool)
      requires Weak()
      modifies this
      ensures Canon() && scale == places && (mag > 0 ==> neg == (neg1 != neg2))
      ensures mag == (if places >= old(scale) then old(mag) * Ten(places - old(scale))
                      else old(mag) / Ten(old(scale) - places))
    {
      hide Val, Pow, Rdx, Gap, Ten, Holds;
      TenZero(mag);
      if scale < places {
        Extend(places - scale);
      } else {
        Truncate(scale - places);
      }
      ZeroHolds(num, rdx, scale, mag, scale);
      Clean();
      if num != [] {
        neg := neg1 != neg2;
      }
    }
  }

  lemma ItHolds(num: seq<int>, rdx: nat, scale: nat, mag: nat)
    requires Limbs(num) && num != [] && Rdx(scale) <= |num| && V(num) == mag * Ten(Gap(scale))
    ensures Holds(num, Rdx(scale), scale, mag)
  {
  }

  lemma ZeroHolds(num: seq<int>, rdx: nat, scale: nat, mag: nat, scale': nat)
    requires Holds(num, rdx, scale, mag)
    ensures num == [] ==> mag == 0 && rdx == 0 && Holds(num, rdx, scale', mag)
    ensures num != [] ==> rdx == Rdx(scale)
    ensures rdx <= |num| && Limbs(num)
    ensures Rdx(0) == 0
  {
    EmptyValue();
    ProductZero(mag, Ten(Gap(scale)));
    ProductZero(mag, Ten(Gap(scale')));
  }

  lemma ZeroQuotient(m: nat, t: nat)
    requires t > 0
    ensures m == 0 ==> m / t == 0
  {
  }

  lemma TenZero(m: int)
    ensures Ten(0) == 1 && m / Ten(0) == m && m * Ten(0) == m
  {
  }

  lemma StripStep(s: seq<int>)
    ensures if s != [] && s[|s| - 1] == 0 then Strip(s) == Strip(s[..|s| - 1]) else Strip(s) == s
  {
  }
}
