/** Little-endian digit sequences and the number they stand for. */
module Positional {

  function Pow(b: nat, n: nat): (p: nat)
    ensures b > 0 ==> p > 0
  {
    if n == 0 then 1 else b * Pow(b, n - 1)
  }

  /** The value of a digit sequence in base b, the first digit least significant. */
  function Val(s: seq<int>, b: nat): int {
    if s == [] then 0 else s[0] + b * Val(s[1..], b)
  }

  predicate Digits(s: seq<int>, b: nat) {
    forall i :: 0 <= i < |s| ==> 0 <= s[i] < b
  }

  lemma {:induction false} PowAdd(b: nat, m: nat, n: nat)
    ensures Pow(b, m + n) == Pow(b, m) * Pow(b, n)
  {
    if m > 0 {
      PowAdd(b, m - 1, n);
      MulAssoc(b, Pow(b, m - 1), Pow(b, n));
    }
  }

  lemma {:induction false} PowMul(b: nat, m: nat, n: nat)
    ensures Pow(Pow(b, m), n) == Pow(b, m * n)
  {
    if n > 0 {
      PowMul(b, m, n - 1);
      PowAdd(b, m, m * (n - 1));
      assert m + m * (n - 1) == m * n;
    } else {
      assert m * n == 0;
    }
  }

  lemma {:induction false} PowMonotone(b: nat, m: nat, n: nat)
    requires b > 0 && m <= n
    ensures Pow(b, m) <= Pow(b, n)
  {
    if m < n {
      PowMonotone(b, m, n - 1);
      MulGrows(b, Pow(b, n - 1));
    }
  }

  // ------------------------------------------------------ products, by hand

  lemma MulAssoc(x: int, y: int, z: int)
    ensures x * (y * z) == (x * y) * z
  {
  }

  lemma MulGrows(x: int, y: int)
    requires x > 0 && y >= 0
    ensures x * y >= y
  {
  }

  lemma MulMonotone(x: int, y: int, z: int)
    requires x <= y && z >= 0
    ensures x * z <= y * z
  {
  }

  lemma MulStrict(x: int, y: int, z: int)
    requires x < y && z > 0
    ensures x * z < y * z
  {
  }

  lemma MulDistrib(x: int, y: int, z: int)
    ensures x * (y + z) == x * y + x * z
  {
  }

  // ----------------------------------------------------- values of sequences

  lemma {:induction false} ValAppend(s: seq<int>, t: seq<int>, b: nat)
    ensures Val(s + t, b) == Val(s, b) + Pow(b, |s|) * Val(t, b)
  {
    if s == [] {
      assert s + t == t;
    } else {
      assert (s + t)[1..] == s[1..] + t;
      ValAppend(s[1..], t, b);
      MulDistrib(b, Val(s[1..], b), Pow(b, |s| - 1) * Val(t, b));
      MulAssoc(b, Pow(b, |s| - 1), Val(t, b));
    }
  }

  lemma ValSnoc(s: seq<int>, x: int, b: nat)
    ensures Val(s + [x], b) == Val(s, b) + Pow(b, |s|) * x
  {
    ValAppend(s, [x], b);
    assert Val([x], b) == x + b * Val([], b) == x;
  }

  lemma ValSplit(s: seq<int>, i: nat, b: nat)
    requires i <= |s|
    ensures Val(s, b) == Val(s[..i], b) + Pow(b, i) * Val(s[i..], b)
  {
    ValAppend(s[..i], s[i..], b);
    assert s == s[..i] + s[i..];
  }

  lemma ValPrefix(s: seq<int>, i: nat, b: nat)
    requires i < |s|
    ensures Val(s[..i + 1], b) == Val(s[..i], b) + Pow(b, i) * s[i]
  {
    ValSnoc(s[..i], s[i], b);
    assert s[..i + 1] == s[..i] + [s[i]];
  }

  lemma {:induction false} ValBound(s: seq<int>, b: nat)
    requires Digits(s, b) && b > 0
    ensures 0 <= Val(s, b) < Pow(b, |s|)
  {
    if s != [] {
      ValBound(s[1..], b);
      DigitBound(s[0], Val(s[1..], b), Pow(b, |s| - 1), b);
    }
  }

  lemma DigitBound(x: int, v: int, p: int, b: int)
    requires 0 <= x < b && 0 <= v < p
    ensures 0 <= x + b * v < b * p
  {
    MulMonotone(v + 1, p, b);
    MulMonotone(0, v, b);
    assert (v + 1) * b == b * v + b;
  }

  lemma {:induction false} ValZeros(s: seq<int>, b: nat)
    requires forall i :: 0 <= i < |s| ==> s[i] == 0
    ensures Val(s, b) == 0
  {
    if s != [] { ValZeros(s[1..], b); }
  }

  /** Only zeros have value zero. */
  lemma {:induction false} ValPositive(s: seq<int>, i: nat, b: nat)
    requires Digits(s, b) && i < |s| && s[i] != 0
    ensures Val(s, b) > 0
  {
    if i == 0 {
      ValBound(s[1..], b);
      MulMonotone(0, Val(s[1..], b), b);
    } else {
      ValPositive(s[1..], i - 1, b);
      MulGrows(b, Val(s[1..], b));
    }
  }

  /** A digit sequence is determined by its length and value. */
  lemma {:induction false} ValInjective(s: seq<int>, t: seq<int>, b: nat)
    requires Digits(s, b) && Digits(t, b) && |s| == |t| && Val(s, b) == Val(t, b)
    ensures s == t
  {
    if s != [] {
      SameQuotient(s[0], Val(s[1..], b), t[0], Val(t[1..], b), b);
      ValInjective(s[1..], t[1..], b);
      assert s == [s[0]] + s[1..] && t == [t[0]] + t[1..];
    }
  }

  lemma SameQuotient(r: int, q: int, r': int, q': int, b: int)
    requires 0 <= r < b && 0 <= r' < b && r + b * q == r' + b * q'
    ensures r == r' && q == q'
  {
    assert b * (q - q') == r' - r;
    if q > q' {
      MulMonotone(1, q - q', b);
    } else if q < q' {
      MulMonotone(1, q' - q, b);
    }
  }

  /** Dividing is naming quotient and remainder. */
  lemma DivIs(n: int, b: int, q: int, r: int)
    requires 0 <= r < b && n == b * q + r
    ensures n / b == q && n % b == r
  {
    SameQuotient(r, q, n % b, n / b, b);
  }

  lemma CancelFactor(x: nat, y: nat, t: nat)
    requires y > 0 && t > 0
    ensures y * t > 0 && (x * t) / (y * t) == x / y
  {
    MulMonotone(1, y, t);
    MulStrict(x % y, y, t);
    MulMonotone(0, x % y, t);
    assert x * t == (y * t) * (x / y) + (x % y) * t by {
      assert x == y * (x / y) + x % y;
    }
    DivIs(x * t, y * t, x / y, (x % y) * t);
  }

  lemma DivDiv(x: nat, y: nat, z: nat)
    requires y > 0 && z > 0
    ensures y * z > 0 && (x / y) / z == x / (y * z)
  {
    var q := x / y;
    DigitBound(x % y, q % z, z, y);
    MulDistrib(y, z * (q / z), q % z);
    MulAssoc(y, z, q / z);
    MulMonotone(1, y, z);
    assert x == y * q + x % y && q == z * (q / z) + q % z;
    DivIs(x, y * z, q / z, x % y + y * (q % z));
  }
}
