/** Schoolbook multiplication column by column, bc_num_m_simp, and why its accumulators fit the machine
    word. */
module NumSchool {
  import opened Positional
  import opened NumKernel

  const KARATSUBA_LEN: nat := 64

  /** One more than the largest BcBigDig. */
  const BIGDIG: int := if WIDE then 0x1_0000_0000_0000_0000 else 0x1_0000_0000

  /** Column i of a product: the sum of all a[j] * b[i - j]. */
  function Col(a: seq<int>, b: seq<int>, i: int): int {
    if a == [] || i < 0 then 0
    else (if i < |b| then a[0] * b[i] else 0) + Col(a[1..], b, i - 1)
  }

  /** The first n columns, weighted. */
  function Cols(a: seq<int>, b: seq<int>, n: nat): int {
    if n == 0 then 0 else Cols(a, b, n - 1) + P(n - 1) * Col(a, b, n - 1)
  }

  function Clip(n: int, len: nat): nat {
    if n < 0 then 0 else if n < len then n else len
  }

  lemma {:induction false} ColsUnfold(a: seq<int>, b: seq<int>, n: nat)
    requires a != []
    ensures Cols(a, b, n) == a[0] * V(b[..Clip(n, |b|)]) + (if n == 0 then 0 else BASE_POW * Cols(a[1..], b, n - 1))
  {
    if n > 0 {
      ColsUnfold(a, b, n - 1);
      var m := n - 1;
      var head := if m < |b| then a[0] * b[m] else 0;
      assert Col(a, b, m) == head + Col(a[1..], b, m - 1);
      if m < |b| { ValPrefix(b, m, BASE_POW); }
      var rest := if m == 0 then 0 else Cols(a[1..], b, m - 1);
      assert Cols(a[1..], b, m) == rest + (if m == 0 then 0 else P(m - 1) * Col(a[1..], b, m - 1));
      assert m == 0 ==> Col(a[1..], b, m - 1) == 0;
      assert m > 0 ==> P(m) == BASE_POW * P(m - 1);
      UnfoldAlgebra(a[0], V(b[..Clip(m, |b|)]), if m < |b| then b[m] else 0, BASE_POW, P(m), if m == 0 then 0 else P(m - 1),
                    rest, Col(a[1..], b, m - 1));
    }
  }

  lemma UnfoldAlgebra(x: int, v: int, y: int, b: int, p: int, p': int, rest: int, col: int)
    requires p == b * p' || (p' == 0 && col == 0)
    ensures x * v + b * rest + p * (x * y + col) == x * (v + p * y) + b * (rest + p' * col)
  {
    assert p * (x * y) == x * (p * y);
    if p == b * p' {
      assert (b * p') * col == b * (p' * col);
    }
  }

  /** All columns together are the product. */
  lemma {:induction false} ColsAreProduct(a: seq<int>, b: seq<int>, n: nat)
    requires n >= |a| + |b|
    ensures Cols(a, b, n) == V(a) * V(b)
  {
    if a == [] {
      ColsOfEmpty(b, n);
    } else {
      ColsUnfold(a, b, n);
      ColsAreProduct(a[1..], b, n - 1);
      assert b[..Clip(n, |b|)] == b;
      ProductOfSum(a[0], BASE_POW, V(a[1..]), V(b));
    }
  }

  lemma ProductOfSum(x: int, b: int, v: int, w: int)
    ensures (x + b * v) * w == x * w + b * (v * w)
  {
    MulAssoc(b, v, w);
  }

  lemma {:induction false} ColsOfEmpty(b: seq<int>, n: nat)
    ensures Cols([], b, n) == 0
  {
    if n > 0 { ColsOfEmpty(b, n - 1); }
  }

  /** Terms left of the end of b are not there: the scan may start at i - |b| + 1. */
  lemma {:induction false} ColSkip(a: seq<int>, b: seq<int>, i: int, j: nat)
    requires j <= |a| && (j == 0 || i - j + 1 >= |b|)
    ensures Col(a, b, i) == Col(a[j..], b, i - j)
    decreases j
  {
    if j > 0 {
      ColSkip(a, b, i, j - 1);
      ColTerm(a, b, i, j - 1);
    } else {
      assert a[0..] == a;
    }
  }

  lemma ColTerm(a: seq<int>, b: seq<int>, i: int, j: nat)
    requires j < |a|
    ensures Col(a[j..], b, i - j)
         == (if 0 <= i - j < |b| then a[j] * b[i - j] else 0) + Col(a[j + 1..], b, i - j - 1)
  {
    assert a[j..][1..] == a[j + 1..];
    if i - j < 0 { assert Col(a[j + 1..], b, i - j - 1) == 0; }
  }

  /** Move what exceeds a limb from `sum` to `carry`. */
  function Spill(sum: nat, carry: nat, over: nat): (nat, nat) {
    PPositive(0);
    if sum >= over then (sum % BASE_POW, carry + sum / BASE_POW) else (sum, carry)
  }

  lemma SpillKeeps(sum: nat, carry: nat, over: nat)
    ensures var (s, c) := Spill(sum, carry, over); s + c * BASE_POW == sum + carry * BASE_POW
    ensures over >= BASE_POW ==> Spill(sum, carry, over).0 < over
    ensures sum < 2 * BASE_POW * BASE_POW ==> Spill(sum, carry, over).1 <= carry + 2 * BASE_POW
  {
    PPositive(0);
    var b := BASE_POW;
    if sum >= over {
      assert sum == b * (sum / b) + sum % b;
      assert (carry + sum / b) * b == carry * b + b * (sum / b);
      if sum < 2 * b * b { QuotientBound(sum, b, 2 * b); }
    }
  }

  lemma ProductFits(x: int, y: int, b: int)
    requires 0 <= x < b && 0 <= y < b
    ensures 0 <= x * y <= b * b - 1
  {
    MulMonotone(x, b, y);
    MulMonotone(y, b - 1, b);
    MulMonotone(0, x, y);
  }

  /** One column: the incoming sum and all its products, as a low part below B^2 and a carry. The
      accumulators stay within a BcBigDig when one operand has fewer than 64 limbs. */
  method Column(a: seq<int>, b: seq<int>, i: nat, start: nat) returns (sum: nat, carry: nat)
    requires Limbs(a) && Limbs(b) && a != [] && b != [] && (|a| < KARATSUBA_LEN || |b| < KARATSUBA_LEN)
    requires i < |a| + |b| && start < 200 * BASE_POW
    ensures sum + carry * BASE_POW == start + Col(a, b, i)
    ensures sum < BASE_POW * BASE_POW && carry <= 130 * BASE_POW
  {
    hide Val, Pow, Col, Spill;
    sum, carry := start, 0;
    var j: nat := if i - |b| + 1 > 0 then i - |b| + 1 else 0;
    var k: int := if i < |b| - 1 then i else |b| - 1;
    ghost var first := j;
    assert j + k == i;
    BaseSquared();
    ColSkip(a, b, i, j);
    ghost var whole := start + Col(a, b, i);
    while j < |a| && 0 <= k < |b|
      invariant first <= j <= |a| && j + k == i && -1 <= k < |b|
      invariant sum + carry * BASE_POW + Col(a[j..], b, i - j) == whole
      invariant sum < BASE_POW * BASE_POW && carry <= 2 * BASE_POW * (j - first) && carry <= 130 * BASE_POW
      decreases |a| - j
    {
      AccumulatorFits(sum, a[j], b[k]);
      ColTerm(a, b, i, j);
      sum := sum + a[j] * b[k];
      SpillKeeps(sum, carry, BASE_POW * BASE_POW);
      var (s, c) := Spill(sum, carry, BASE_POW * BASE_POW);
      FewTerms(|a|, |b|, j - first, first, k, carry);
      assert c < BIGDIG;
      sum, carry := s, c;
      j, k := j + 1, k - 1;
    }
    ColDone(a, b, i, j);
  }

  lemma ColDone(a: seq<int>, b: seq<int>, i: int, j: nat)
    requires j == |a| || (j < |a| && i - j < 0)
    ensures Col(a[j..], b, i - j) == 0
  {
  }

  lemma BaseSquared()
    ensures 2 * BASE_POW * BASE_POW < BIGDIG && BASE_POW * BASE_POW >= 200 * BASE_POW && BASE_POW > 0
    ensures 132 * BASE_POW < BIGDIG
  {
    BasePow();
  }

  /** The accumulator after one more product, before it is cut. */
  lemma AccumulatorFits(sum: nat, x: int, y: int)
    requires sum < BASE_POW * BASE_POW && 0 <= x < BASE_POW && 0 <= y < BASE_POW
    ensures 0 <= sum + x * y < 2 * BASE_POW * BASE_POW < BIGDIG
  {
    ProductFits(x, y, BASE_POW);
    BaseSquared();
    assert 2 * BASE_POW * BASE_POW == BASE_POW * BASE_POW + BASE_POW * BASE_POW;
  }

  /** What is carried into the next column. */
  lemma NextStart(sum: nat, carry: nat)
    requires sum < BASE_POW * BASE_POW && carry <= 130 * BASE_POW
    ensures var (d, next) := Spill(sum, carry, BASE_POW);
            d + next * BASE_POW == sum + carry * BASE_POW && 0 <= d < BASE_POW && next < 200 * BASE_POW
  {
    BaseSquared();
    SpillKeeps(sum, carry, BASE_POW);
    assert 2 * BASE_POW * BASE_POW == BASE_POW * BASE_POW + BASE_POW * BASE_POW;
  }

  lemma FewTerms(alen: nat, blen: nat, done: nat, first: nat, k: nat, carry: nat)
    requires alen < KARATSUBA_LEN || blen < KARATSUBA_LEN
    requires first + done < alen && k + done < blen
    requires carry <= 2 * BASE_POW * done
    ensures carry + 2 * BASE_POW <= 2 * BASE_POW * (done + 1) <= 130 * BASE_POW && carry + 2 * BASE_POW < BIGDIG
  {
    BaseSquared();
  }

  /** bc_num_m_simp. The result has |a| + |b| limbs, leading zeros included; its last accumulator is
      always empty. */
  method MulSimple(a: seq<int>, b: seq<int>) returns (c: seq<int>)
    requires Limbs(a) && Limbs(b) && a != [] && b != [] && (|a| < KARATSUBA_LEN || |b| < KARATSUBA_LEN)
    ensures |c| == |a| + |b| && Limbs(c) && V(c) == V(a) * V(b)
  {
    hide Val, Pow, Col, Spill;
    var clen := |a| + |b|;
    var sum: nat := 0;
    c := [];
    EmptyValue();
    PPositive(0);
    var i := 0;
    while i < clen
      invariant i <= clen && |c| == i && Limbs(c) && sum < 200 * BASE_POW
      invariant V(c) + sum * P(i) == Cols(a, b, i)
    {
      var s, carry := Column(a, b, i, sum);
      NextStart(s, carry);
      var (d, next) := Spill(s, carry, BASE_POW);
      CarryStep(c, sum, Cols(a, b, i), d, next, Col(a, b, i));
      c := c + [d];
      sum := next;
      i := i + 1;
    }
    ColsAreProduct(a, b, clen);
    ProductBelow(a, b);
    PPositive(clen);
    ValBound(c, BASE_POW);
    NothingOver(V(c), sum, P(clen));
    if sum != 0 {
      c := c + [sum];
    }
  }

  /** A product of m and n limbs has at most m + n limbs. */
  lemma ProductBelow(a: seq<int>, b: seq<int>)
    requires Limbs(a) && Limbs(b)
    ensures 0 <= V(a) * V(b) < P(|a| + |b|)
  {
    hide Val, Pow;
    PPositive(|a|);
    PPositive(|b|);
    ValBound(a, BASE_POW);
    ValBound(b, BASE_POW);
    PowAdd(BASE_POW, |a|, |b|);
    MulMonotone(V(a), P(|a|), V(b));
    MulStrict(V(b), P(|b|), P(|a|));
    MulMonotone(0, V(a), V(b));
  }

  lemma NothingOver(v: int, sum: nat, p: int)
    requires v >= 0 && p > 0 && v + sum * p < p
    ensures sum == 0
  {
    if sum > 0 { MulGrows(sum, p); }
  }
}
