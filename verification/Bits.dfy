/** Shifts, masks and single bits of natural numbers, and bytes read as a stream of bits.
    The C shift `x >> a`, the shift `x << a` and the mask `x & (2^n - 1)` are Shr, Shl and Low;
    `|` of operands without a common bit is `+`. */
module Bits {

  type Byte = b: int | 0 <= b < 256

  function Pow2(n: nat): (p: nat)
    ensures p > 0
  {
    if n == 0 then 1 else 2 * Pow2(n - 1)
  }

  function Shr(x: nat, a: nat): nat {
    if a == 0 then x else Shr(x / 2, a - 1)
  }

  function Shl(x: nat, a: nat): nat {
    if a == 0 then x else 2 * Shl(x, a - 1)
  }

  function Low(x: nat, n: nat): (r: nat)
    ensures r < Pow2(n) && r <= x
  {
    if n == 0 then 0 else x % 2 + 2 * Low(x / 2, n - 1)
  }

  /** Bit t of x. */
  predicate BitOf(x: nat, t: nat) {
    if t == 0 then x % 2 == 1 else BitOf(x / 2, t - 1)
  }

  /** Bit i of a byte string, the low bit of each byte first. */
  predicate StreamBit(s: seq<Byte>, i: nat)
    requires i / 8 < |s|
  {
    BitOf(s[i / 8], i % 8)
  }

  lemma {:induction false} BitOfZero(t: nat)
    ensures !BitOf(0, t)
  {
    if t > 0 { BitOfZero(t - 1); }
  }

  lemma {:induction false} BitOfShr(x: nat, a: nat, t: nat)
    ensures BitOf(Shr(x, a), t) == BitOf(x, a + t)
  {
    if a > 0 { BitOfShr(x / 2, a - 1, t); }
  }

  lemma {:induction false} BitOfLow(x: nat, n: nat, t: nat)
    ensures BitOf(Low(x, n), t) == (t < n && BitOf(x, t))
  {
    if n == 0 {
      BitOfZero(t);
    } else if t > 0 {
      assert Low(x, n) / 2 == Low(x / 2, n - 1);
      BitOfLow(x / 2, n - 1, t - 1);
    }
  }

  /** Joining a low part of r bits and a high part above it. */
  lemma {:induction false} BitOfJoin(x: nat, y: nat, r: nat, t: nat)
    ensures BitOf(Low(x, r) + Shl(y, r), t) == if t < r then BitOf(x, t) else BitOf(y, t - r)
  {
    if r > 0 {
      var z := Low(x, r) + Shl(y, r);
      assert z / 2 == Low(x / 2, r - 1) + Shl(y, r - 1) && z % 2 == x % 2;
      if t > 0 { BitOfJoin(x / 2, y, r - 1, t - 1); }
    }
  }

  /** The low n bits of a number determine it modulo 2^n. */
  lemma {:induction false} LowFromBits(x: nat, y: nat, n: nat)
    requires forall t :: 0 <= t < n ==> BitOf(x, t) == BitOf(y, t)
    ensures Low(x, n) == Low(y, n)
  {
    if n > 0 {
      assert BitOf(x, 0) == BitOf(y, 0);
      forall t | 0 <= t < n - 1
        ensures BitOf(x / 2, t) == BitOf(y / 2, t)
      {
        assert BitOf(x, t + 1) == BitOf(y, t + 1);
      }
      LowFromBits(x / 2, y / 2, n - 1);
    }
  }

  lemma {:induction false} LowOfSmall(x: nat, n: nat)
    requires x < Pow2(n)
    ensures Low(x, n) == x
  {
    if n > 0 { LowOfSmall(x / 2, n - 1); }
  }

  lemma {:induction false} ShrSmall(x: nat, a: nat, n: nat)
    requires x < Pow2(a + n)
    ensures Shr(x, a) < Pow2(n)
  {
    if a > 0 { ShrSmall(x / 2, a - 1, n); }
  }

  lemma {:induction false} ShlAdd(x: nat, y: nat, a: nat, b: nat)
    ensures Shl(x + Shl(y, b), a) == Shl(x, a) + Shl(y, a + b)
  {
    if a > 0 { ShlAdd(x, y, a - 1, b); }
  }

  lemma {:induction false} LowShl(x: nat, r: nat, n: nat)
    requires r <= n
    ensures Low(Shl(x, r), n) == Shl(Low(x, n - r), r)
  {
    if r > 0 {
      assert Shl(x, r) / 2 == Shl(x, r - 1) && Shl(x, r) % 2 == 0;
      LowShl(x, r - 1, n - 1);
    }
  }

  lemma {:induction false} PowMonotone(a: nat, b: nat)
    requires a <= b
    ensures Pow2(a) <= Pow2(b)
  {
    if a < b { PowMonotone(a, b - 1); }
  }

  lemma {:induction false} PowReflects(a: nat, b: nat)
    ensures Pow2(a) <= Pow2(b) ==> a <= b
  {
    if a > b { PowMonotone(b + 1, a); }
  }

  lemma {:induction false} SplitShl(y: nat, x: nat, r: nat)
    requires x < Pow2(r)
    ensures Low(Shl(y, r) + x, r) == x && Shr(Shl(y, r) + x, r) == y
  {
    if r > 0 {
      assert (Shl(y, r) + x) / 2 == Shl(y, r - 1) + x / 2;
      SplitShl(y, x / 2, r - 1);
    }
  }

  lemma {:induction false} JoinBound(x: nat, y: nat, r: nat, m: nat)
    requires y < Pow2(m)
    ensures Low(x, r) + Shl(y, r) < Pow2(r + m)
  {
    if r > 0 { JoinBound(x / 2, y, r - 1, m); }
  }
}
