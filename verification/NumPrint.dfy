/** Printing the integer part in another base: bc_num_printFixup, bc_num_printPrepare and the digit stack
    of bc_num_printNum. */
module NumPrint {
  import opened Positional
  import opened NumKernel
  import opened Num

  /** One step down: the pair of limbs (y, x) in base B becomes a limb of base pow and a rest. */
  lemma FixupStep(x: int, y: int, u: int, pow: int, rem: int, b: int)
    requires pow > 0 && b == pow + rem
    ensures var acc := y * rem + x; x + b * (y + pow * u) == acc % pow + pow * ((acc / pow + y) + b * u)
  {
    var acc := y * rem + x;
    assert acc == pow * (acc / pow) + acc % pow;
    assert b * (y + pow * u) == b * y + pow * (b * u);
    assert b * y == pow * y + rem * y;
    assert pow * ((acc / pow + y) + b * u) == pow * (acc / pow) + pow * y + pow * (b * u);
  }

  lemma FixupSum(x: int, y: int, pow: int, rem: int, b: int)
    requires pow >= 2 && rem >= 0 && b == pow + rem && 0 <= x < b && 0 <= y < b
    ensures var acc := y * rem + x; 0 <= acc < (b - 1) * (b - 1) + 1 && (y < pow ==> acc < (rem + 1) * pow)
  {
    MulMonotone(0, y, rem);
    MulMonotone(y, b - 1, rem);
    MulMonotone(rem, b - 2, b - 1);
    assert (b - 1) * (b - 2) + (b - 1) == (b - 1) * (b - 1);
    MulCommutes(b - 1, rem);
    MulCommutes(b - 1, b - 2);
    if y < pow {
      MulMonotone(y, pow - 1, rem);
      assert (pow - 1) * rem == pow * rem - rem;
      assert (rem + 1) * pow == pow * rem + pow;
    }
  }

  /** Below the top, the rest fits in its limb. */
  lemma FixupFits(x: int, y: int, pow: int, rem: int, b: int)
    requires pow >= 2 && rem >= 0 && b == pow + rem && 0 <= x < b && 0 <= y < b
    ensures var acc := y * rem + x;
            acc >= 0 && 0 <= acc % pow < pow && 0 <= acc / pow && acc / pow + y < b * b && (y < pow ==> acc / pow + y < b)
  {
    var acc := y * rem + x;
    FixupSum(x, y, pow, rem, b);
    assert (b - 1) * (b - 1) == b * b - 2 * b + 1;
    QuotientBelow(acc, pow, (b - 1) * (b - 1) + 1, rem + 1);
  }

  lemma QuotientBelow(acc: int, pow: int, big: int, small: int)
    requires pow >= 2 && 0 <= acc < big && small >= 0
    ensures 0 <= acc % pow < pow && 0 <= acc / pow < big && (acc < small * pow ==> acc / pow < small)
  {
    MulGrows(pow, big);
    MulCommutes(pow, big);
    QuotientBound(acc, pow, big);
    if acc < small * pow { QuotientBound(acc, pow, small); }
  }

  /** One pass of bc_num_printFixup: the lowest limb in base pow, the rest above it still in base B. */
  method PrintFixup(n: seq<int>, rem: nat, pow: nat) returns (a: seq<int>)
    requires Limbs(n) && |n| >= 2 && n[|n| - 1] > 0 && 2 <= pow && BASE_POW == pow + rem
    ensures |n| <= |a| <= |n| + 1 && Limbs(a) && a[|a| - 1] > 0 && a[0] < pow
    ensures V(n) == a[0] + pow * V(a[1..])
  {
    hide Val, Pow;
    a := n;
    var len := |n|;
    var i := len - 1;
    FixupStart(n, pow);
    while i > 0
      invariant 0 <= i < len && len <= |a| <= len + 1 && (i == len - 1 ==> |a| == len) && Limbs(a) && a[|a| - 1] > 0
      invariant a[..i] == n[..i] && (i < len - 1 ==> a[i] < pow)
      invariant V(n[i..]) == a[i] + pow * V(a[i + 1..])
    {
      a := PrintStep(n, a, i, rem, pow);
      i := i - 1;
    }
    assert n[0..] == n;
  }

  lemma FixupStart(n: seq<int>, pow: nat)
    requires n != []
    ensures V(n[|n| - 1..]) == n[|n| - 1] + pow * V(n[|n|..])
  {
    EmptyValue();
    assert n[|n| - 1..] == [n[|n| - 1]] && n[|n|..] == [];
    ValSnoc([], n[|n| - 1], BASE_POW);
    assert [] + [n[|n| - 1]] == [n[|n| - 1]];
  }

  method PrintStep(n: seq<int>, a: seq<int>, i: nat, rem: nat, pow: nat) returns (r: seq<int>)
    requires Limbs(n) && 0 < i < |n| && 2 <= pow && BASE_POW == pow + rem
    requires |n| <= |a| <= |n| + 1 && (i == |n| - 1 ==> |a| == |n|) && Limbs(a) && a[|a| - 1] > 0
    requires a[..i] == n[..i] && (i < |n| - 1 ==> a[i] < pow)
    requires V(n[i..]) == a[i] + pow * V(a[i + 1..])
    ensures |n| <= |r| <= |n| + 1 && Limbs(r) && r[|r| - 1] > 0 && r[..i - 1] == n[..i - 1] && r[i - 1] < pow
    ensures V(n[i - 1..]) == r[i - 1] + pow * V(r[i..])
  {
    hide Val, Pow;
    var x, y := a[i - 1], a[i];
    ghost var u := V(a[i + 1..]);
    assert x == n[..i][i - 1];
    FixupFits(x, y, pow, rem, BASE_POW);
    FixupStep(x, y, u, pow, rem, BASE_POW);
    LowLimb(n, i - 1);
    var acc := y * rem + x;
    r := a[i - 1 := acc % pow];
    acc := acc / pow + y;
    if acc >= BASE_POW {
      // only at the top, where the vector grows
      TopCarry(acc, u, a, i);
      QuotientBound(acc, BASE_POW, BASE_POW);
      if i == |a| - 1 {
        r := r + [0];
      }
      r := r[i + 1 := r[i + 1] + acc / BASE_POW][i := acc % BASE_POW];
      LowLimb(r, i);
      SingleLimb1(acc / BASE_POW);
      assert r[i + 1..] == [acc / BASE_POW];
    } else {
      r := r[i := acc];
      LowLimb(r, i);
      assert r[i + 1..] == a[i + 1..];
    }
    assert r[..i - 1] == a[..i][..i - 1];
    assert n[..i][..i - 1] == n[..i - 1];
  }

  lemma LowLimb(s: seq<int>, i: nat)
    requires i < |s|
    ensures V(s[i..]) == s[i] + BASE_POW * V(s[i + 1..])
  {
    assert s[i..][1..] == s[i + 1..];
  }

  lemma SingleLimb1(x: int)
    ensures V([x]) == x
  {
    EmptyValue();
    ValSnoc([], x, BASE_POW);
    assert [] + [x] == [x];
  }

  lemma TopCarry(acc: nat, u: int, a: seq<int>, i: nat)
    requires i < |a| && u == V(a[i + 1..]) && acc >= BASE_POW
    ensures BASE_POW > 0 && acc / BASE_POW > 0 && 0 <= acc % BASE_POW < BASE_POW
    ensures acc == acc % BASE_POW + BASE_POW * (acc / BASE_POW)
    ensures i == |a| - 1 ==> u == 0
  {
    PPositive(0);
    EmptyValue();
  }

  // -------------------------------------------------------------- all passes

  /** Limbs below i are already in base pow, those from i on still in base B. */
  function Mixed(n: seq<int>, i: nat, pow: nat): int
    requires i <= |n|
  {
    Val(n[..i], pow) + Pow(pow, i) * V(n[i..])
  }

  lemma MixedPass(n: seq<int>, r: seq<int>, i: nat, pow: nat)
    requires i < |n| && i < |r| && r[..i] == n[..i] && V(n[i..]) == r[i] + pow * V(r[i + 1..])
    ensures Mixed(r, i + 1, pow) == Mixed(n, i, pow)
  {
    ValPrefix(r, i, pow);
    assert Pow(pow, i + 1) == pow * Pow(pow, i);
    hide Val, Pow;
    MulDistrib(Pow(pow, i), r[i], pow * V(r[i + 1..]));
    MulAssoc(Pow(pow, i), pow, V(r[i + 1..]));
    MulCommutes(Pow(pow, i), pow);
  }

  lemma MixedEnds(n: seq<int>, pow: nat)
    ensures Mixed(n, 0, pow) == V(n) && Mixed(n, |n|, pow) == Val(n, pow)
  {
    assert n[0..] == n && n[..0] == [] && n[..|n|] == n && n[|n|..] == [];
    EmptyValue();
  }

  /** Everything but the top limb is below pow. */
  predicate Settled(n: seq<int>, i: nat, pow: nat) {
    forall k :: 0 <= k < i && k < |n| ==> 0 <= n[k] < pow
  }

  /** The remaining value shrinks with every pass over two or more limbs. */
  lemma PassShrinks(n: seq<int>, r: seq<int>, pow: nat)
    requires Limbs(n) && Limbs(r) && r != [] && |n| >= 2 && n[|n| - 1] > 0 && 2 <= pow && V(n) == r[0] + pow * V(r[1..])
    ensures 0 <= V(r[1..]) < V(n)
  {
    hide Val, Pow;
    PPositive(0);
    ValPositive(n, |n| - 1, BASE_POW);
    ValBound(r[1..], BASE_POW);
    MulMonotone(2, pow, V(r[1..]));
  }

  /** The first loop of bc_num_printPrepare. */
  method ConvertLimbs(n: seq<int>, rem: nat, pow: nat) returns (r: seq<int>)
    requires Limbs(n) && n != [] && n[|n| - 1] > 0 && 2 <= pow && BASE_POW == pow + rem
    ensures Limbs(r) && r != [] && r[|r| - 1] > 0 && Settled(r, |r| - 1, pow) && Val(r, pow) == V(n)
  {
    hide Val, Pow, Mixed;
    r := n;
    var i := 0;
    MixedEnds(n, pow);
    RestNonneg(r, 0);
    while i < |r|
      invariant 0 <= i <= |r| && Limbs(r) && r != [] && r[|r| - 1] > 0
      invariant Settled(r, if i < |r| then i else |r| - 1, pow) && Mixed(r, i, pow) == V(n)
      invariant V(r[i..]) >= 0
      decreases V(r[i..]), |r| - i
    {
      if |r| - i >= 2 {
        var a := PrintFixup(r[i..], rem, pow);
        PassShrinks(r[i..], a, pow);
        var s := r[..i] + a;
        assert a[1..] == s[i + 1..];
        MixedPass(r, s, i, pow);
        r := s;
      } else {
        LastLimb(r, i, pow);
      }
      i := i + 1;
    }
    MixedEnds(r, pow);
  }

  lemma RestNonneg(n: seq<int>, i: nat)
    requires Limbs(n) && i <= |n|
    ensures V(n[i..]) >= 0
  {
    PPositive(0);
    ValBound(n[i..], BASE_POW);
  }

  lemma LastLimb(n: seq<int>, i: nat, pow: nat)
    requires i + 1 == |n| && Limbs(n) && n[i] > 0
    ensures Mixed(n, i + 1, pow) == Mixed(n, i, pow) && 0 == V(n[i + 1..]) < V(n[i..])
  {
    LowLimb(n, i);
    EmptyValue();
    assert n[i + 1..] == [];
    ValPrefix(n, i, pow);
    hide Val, Pow;
    assert Pow(pow, i + 1) * 0 == 0;
  }

  /** The second loop: limbs still at or above pow overflow upwards. */
  method SettleTop(n: seq<int>, pow: nat) returns (r: seq<int>)
    requires n != [] && n[|n| - 1] > 0 && Settled(n, |n| - 1, pow) && 2 <= pow
    ensures r != [] && r[|r| - 1] > 0 && Digits(r, pow) && Val(r, pow) == Val(n, pow)
  {
    hide Val, Pow;
    r := n;
    var i := 0;
    while i < |r|
      invariant 0 <= i <= |r| && r != [] && r[|r| - 1] > 0 && Settled(r, |r| - 1, pow) && Settled(r, i, pow)
      invariant Val(r, pow) == Val(n, pow)
      decreases r[|r| - 1], |r| - i
    {
      if r[i] >= pow {
        assert i == |r| - 1;
        var s := r;
        if i + 1 == |s| {
          s := s + [0];
        }
        s := s[i + 1 := s[i + 1] + s[i] / pow][i := s[i] % pow];
        TopOverflows(r, s, pow);
        r := s;
      }
      i := i + 1;
    }
  }

  lemma TopOverflows(r: seq<int>, s: seq<int>, pow: nat)
    requires r != [] && pow >= 2 && r[|r| - 1] >= pow && |s| == |r| + 1
    requires var i := |r| - 1; s == r[i := r[i] % pow] + [r[i] / pow]
    ensures Val(s, pow) == Val(r, pow) && 0 < s[|s| - 1] < r[|r| - 1] && 0 <= s[|r| - 1] < pow
  {
    var i := |r| - 1;
    ValPrefix(r, i, pow);
    ValPrefix(s, i, pow);
    ValPrefix(s, i + 1, pow);
    assert r[..i + 1] == r && s[..i + 2] == s && s[..i] == r[..i];
    assert Pow(pow, i + 1) == pow * Pow(pow, i);
    hide Val, Pow;
    TopSplit(Pow(pow, i), r[i], pow);
    HalfOf(r[i], pow);
  }

  lemma TopSplit(p: int, x: int, pow: int)
    requires pow > 0
    ensures p * (x % pow) + (pow * p) * (x / pow) == p * x
  {
    assert x == pow * (x / pow) + x % pow;
    MulDistrib(p, pow * (x / pow), x % pow);
    MulAssoc(p, pow, x / pow);
    MulCommutes(p, pow);
  }

  lemma HalfOf(x: int, pow: int)
    requires pow >= 2 && x >= pow
    ensures 0 < x / pow < x && 0 <= x % pow < pow
  {
    MulGrows(pow - 1, x);
    assert x * pow == (pow - 1) * x + x;
    QuotientBound(x, pow, x);
  }

  // ---------------------------------------------------------- the digit stack

  /** The largest power of the base that fits in a limb. */
  method LargestPower(base: nat) returns (pow: nat, exp: nat)
    requires 1 < base <= BASE_POW
    ensures exp > 0 && pow == Pow(base, exp) && 2 <= pow <= BASE_POW
    ensures pow * base > BASE_POW
  {
    pow, exp := 1, 0;
    while pow * base <= BASE_POW
      invariant pow == Pow(base, exp) && 1 <= pow <= BASE_POW && (exp > 0 || pow == 1) && (exp > 0 ==> 2 <= pow)
      decreases BASE_POW - pow
    {
      MulMonotone(2, base, pow);
      MulCommutes(pow, base);
      pow := pow * base;
      exp := exp + 1;
    }
  }

  lemma DigitOff(acc: nat, base: nat, k: nat, p: nat, v: int)
    requires base > 1 && acc < Pow(base, k + 1)
    ensures 0 <= acc % base < base && 0 <= acc / base < Pow(base, k)
    ensures v + p * acc == (v + p * (acc % base)) + (base * p) * (acc / base)
    ensures acc > 0 && acc / base == 0 ==> acc % base > 0
  {
    QuotientBound(acc, base, Pow(base, k));
    TopSplit(p, acc, base);
  }

  /** The digits of one limb: all exp of them, or for the top limb only those down to the last nonzero. */
  method LimbDigits(limb: nat, base: nat, exp: nat, top: bool) returns (ds: seq<int>)
    requires base > 1 && exp > 0 && limb < Pow(base, exp) && (top ==> limb > 0)
    ensures Digits(ds, base) && Val(ds, base) == limb && |ds| <= exp
    ensures if top then ds != [] && ds[|ds| - 1] > 0 else |ds| == exp
  {
    hide Val, Pow;
    var acc, j := limb, 0;
    ds := [];
    assert Val([], base) == 0 && Pow(base, 0) == 1 by { EmptyIn(base); }
    while j < exp && (!top || acc != 0)
      invariant 0 <= j <= exp && |ds| == j && Digits(ds, base) && 0 <= acc < Pow(base, exp - j)
      invariant Val(ds, base) + Pow(base, j) * acc == limb
      invariant top && acc == 0 ==> ds != [] && ds[|ds| - 1] > 0
      decreases exp - j
    {
      DigitOff(acc, base, exp - j - 1, Pow(base, j), Val(ds, base));
      var dig := acc;
      if j != exp - 1 {
        dig := acc % base;
        acc := acc / base;
      } else {
        LastDigit(acc, base);
        acc := 0;
      }
      ValSnoc(ds, dig, base);
      NextPower(base, j);
      ds := ds + [dig];
      j := j + 1;
    }
    LastDigit(acc, base);
  }

  lemma EmptyIn(base: nat)
    ensures Val([], base) == 0 && Pow(base, 0) == 1
  {
  }

  lemma NextPower(base: nat, j: nat)
    ensures Pow(base, j + 1) == base * Pow(base, j)
  {
  }

  lemma LastDigit(acc: nat, base: nat)
    requires base > 0
    ensures acc < Pow(base, 1) ==> acc < base && acc % base == acc && acc / base == 0
    ensures acc < Pow(base, 0) ==> acc == 0
  {
    assert Pow(base, 1) == base * Pow(base, 0) == base;
  }

  /** The stack of bc_num_printNum, least digit first. */
  method DigitStack(n: seq<int>, base: nat, pow: nat, exp: nat) returns (stack: seq<int>)
    requires base > 1 && exp > 0 && pow == Pow(base, exp) && Digits(n, pow) && (n != [] ==> n[|n| - 1] > 0)
    ensures Digits(stack, base) && Val(stack, base) == Val(n, pow)
    ensures if n == [] then stack == [] else stack != [] && stack[|stack| - 1] > 0
  {
    hide Val, Pow;
    stack := [];
    EmptyIn(base);
    EmptyIn(pow);
    assert n[..0] == [];
    var i := 0;
    while i < |n|
      invariant i <= |n| && Digits(stack, base) && Val(stack, base) == Val(n[..i], pow)
      invariant (i < |n| ==> |stack| == exp * i) && (i == 0 ==> stack == [])
      invariant i == |n| && n != [] ==> stack != [] && stack[|stack| - 1] > 0
    {
      var ds := LimbDigits(n[i], base, exp, i == |n| - 1);
      ValPrefix(n, i, pow);
      ValAppend(stack, ds, base);
      PowMul(base, exp, i);
      MulDistrib(exp, i, 1);
      stack := stack + ds;
      i := i + 1;
    }
    assert n[..i] == n;
  }

  /** Digits most significant first. */
  function Horner(s: seq<int>, b: nat): int {
    if s == [] then 0 else Horner(s[..|s| - 1], b) * b + s[|s| - 1]
  }

  lemma HornerStep(s: seq<int>, i: nat, out: seq<int>, b: nat)
    requires i < |s| && Horner(out, b) == Val(s[i + 1..], b)
    ensures Horner(out + [s[i]], b) == Val(s[i..], b)
  {
    assert s[i..][1..] == s[i + 1..];
    assert (out + [s[i]])[..|out|] == out;
  }

  /** The stack is printed from its top. */
  method FromTop(stack: seq<int>, base: nat) returns (out: seq<int>)
    requires Digits(stack, base)
    ensures Digits(out, base) && Horner(out, base) == Val(stack, base)
    ensures |out| == |stack| && (out != [] ==> out[0] == stack[|stack| - 1])
  {
    hide Val;
    out := [];
    var i := |stack|;
    assert stack[i..] == [];
    EmptyIn(base);
    while i > 0
      invariant 0 <= i <= |stack| && |out| == |stack| - i && Digits(out, base)
      invariant Horner(out, base) == Val(stack[i..], base) && (out != [] ==> out[0] == stack[|stack| - 1])
    {
      i := i - 1;
      HornerStep(stack, i, out, base);
      out := out + [stack[i]];
    }
    assert stack[0..] == stack;
  }

  lemma WholePart(n: BcNum)
    requires n.Canon() && n.scale == 0
    ensures Limbs(n.num) && V(n.num) == n.mag && (n.num != [] ==> n.num[|n.num| - 1] > 0)
  {
    RdxDrop(0, 0);
    TenZero(n.mag);
  }

  /** The digits of a whole number of limbs. */
  method PrintLimbs(n: seq<int>, base: nat) returns (out: seq<int>)
    requires Limbs(n) && (n != [] ==> n[|n| - 1] > 0) && 1 < base <= BASE_POW
    ensures Digits(out, base) && Horner(out, base) == V(n) && (out != [] ==> out[0] > 0)
  {
    hide Val, Pow, Horner;
    var pow, exp := LargestPower(base);
    var s := n;
    var rem := BASE_POW - pow;
    EmptyIn(pow);
    EmptyValue();
    if rem != 0 && s != [] {
      s := ConvertLimbs(s, rem, pow);
      s := SettleTop(s, pow);
    }
    var stack := DigitStack(s, base, pow, exp);
    out := FromTop(stack, base);
  }

  /** The integer part as bc_num_printNum prints it, first digit first. */
  method PrintInteger(n: BcNum, base: nat) returns (out: seq<int>)
    requires n.Canon() && 1 < base <= BASE_POW
    ensures Digits(out, base) && (out != [] ==> out[0] > 0)
    ensures Horner(out, base) == n.mag / Ten(n.scale)
    ensures forall i :: 0 <= i < |out| ==> 0 <= out[i] < base && out[i] == n.mag / Ten(n.scale) / Pow(base, |out| - 1 - i) % base
  {
    hide Val, Pow, Ten, Holds, Horner;
    var intp := new BcNum.Copy(n);
    intp.Truncate(intp.scale);
    WholePart(intp);
    out := PrintLimbs(intp.num, base);
    forall i | 0 <= i < |out|
      ensures 0 <= out[i] < base && out[i] == n.mag / Ten(n.scale) / Pow(base, |out| - 1 - i) % base
    {
      HornerDigit(out, base, i);
    }
  }

  /** Each digit is the value cut to its place and to the base. */
  lemma {:induction false} HornerDigit(s: seq<int>, b: nat, i: nat)
    requires b > 1 && Digits(s, b) && i < |s|
    ensures Pow(b, |s| - 1 - i) > 0 && 0 <= s[i] < b && s[i] == Horner(s, b) / Pow(b, |s| - 1 - i) % b
    decreases |s|
  {
    var init, d := s[..|s| - 1], s[|s| - 1];
    assert Digits(init, b);
    if i == |s| - 1 {
      assert Pow(b, 0) == 1;
      LowestDigit(Horner(init, b), b, d);
    } else {
      HornerDigit(init, b, i);
      CutTwice(Horner(init, b), b, d, Pow(b, |init| - 1 - i));
      assert Pow(b, |s| - 1 - i) == b * Pow(b, |init| - 1 - i);
    }
  }

  lemma LowestDigit(h: int, b: nat, d: int)
    requires b > 1 && 0 <= d < b
    ensures (h * b + d) / b == h && (h * b + d) % b == d
  {
    MulCommutes(h, b);
    DivIs(h * b + d, b, h, d);
  }

  lemma CutTwice(h: int, b: nat, d: int, p: nat)
    requires b > 1 && 0 <= d < b && p > 0
    ensures b * p > 0 && (h * b + d) / (b * p) == h / p
  {
    MulGrows(b, p);
    var q, r := h / p, h % p;
    assert h == p * q + r && 0 <= r < p;
    assert h * b + d == (b * p) * q + (r * b + d) by {
      assert (p * q + r) * b == (b * p) * q + r * b;
    }
    assert 0 <= r * b + d < b * p by {
      MulMonotone(r + 1, p, b);
      assert (r + 1) * b == r * b + b;
      MulCommutes(p, b);
    }
    DivIs(h * b + d, b * p, q, r * b + d);
  }
}
