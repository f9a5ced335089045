/** Decimal text: bc_num_printDecimal and bc_num_parseDecimal. */
module NumDecimal {
  import opened Positional
  import opened NumKernel
  import opened Num

  // ------------------------------------------------------------ what text means

  predicate IsUpper(c: char) {
    'A' <= c <= 'Z'
  }

  /** bc_num_parseDecimal reads every capital letter as nine. */
  function CharValue(c: char): (d: int)
    requires '0' <= c <= '9' || IsUpper(c)
    ensures 0 <= d <= 9
  {
    if IsUpper(c) then 9 else c as int - '0' as int
  }

  function DigitChar(d: int): (c: char)
    requires 0 <= d <= 9
    ensures '0' <= c <= '9' && CharValue(c) == d
  {
    ('0' as int + d) as char
  }

  /** Digits and capitals with at most one point: bc_num_strValid. */
  predicate Valid(s: string) {
    s == [] || (var c := s[|s| - 1];
                Valid(s[..|s| - 1]) && (if c == '.' then '.' !in s[..|s| - 1] else '0' <= c <= '9' || IsUpper(c)))
  }

  /** The digits as one whole number, the point ignored. */
  function TextValue(s: string): (v: nat)
    requires Valid(s)
  {
    if s == [] then 0
    else if s[|s| - 1] == '.' then TextValue(s[..|s| - 1])
    else TextValue(s[..|s| - 1]) * 10 + CharValue(s[|s| - 1])
  }

  /** The number of characters after the point. */
  function TextScale(s: string): (n: nat)
    ensures n <= |s|
  {
    if '.' !in s || s[|s| - 1] == '.' then 0 else 1 + TextScale(s[..|s| - 1])
  }

  /** The number of digits. */
  function Count(s: string): (n: nat)
    ensures n <= |s|
  {
    if s == [] then 0 else Count(s[..|s| - 1]) + (if s[|s| - 1] == '.' then 0 else 1)
  }

  /** A character for a digit is worth its distance from '0'; any capital is worth a nine. */
  lemma CharWorth(c: char)
    requires '0' <= c <= '9' || 'A' <= c <= 'Z'
    ensures Valid([c]) && TextValue([c]) == if c <= '9' then c as int - 48 else 9
    ensures TextScale([c]) == 0
  {
    assert [c][..0] == [] && Valid([]) && TextValue([]) == 0;
    assert c != '.';
  }

  /** Texts of one more character. */
  lemma OneCharacter(s: string, c: char)
    requires Valid(s + [c])
    ensures Valid(s) && (if c == '.' then '.' !in s else '0' <= c <= '9' || IsUpper(c))
    ensures Valid([c]) && Count(s + [c]) == Count(s) + Count([c]) && Count([c]) == if c == '.' then 0 else 1
    ensures TextValue(s + [c]) == if c == '.' then TextValue(s) else TextValue(s) * 10 + TextValue([c])
  {
    assert (s + [c])[..|s|] == s && [c][..0] == [];
    assert Valid([]) && TextValue([]) == 0 && Count([]) == 0;
  }

  /** Each further character makes the others worth ten times as much, and the point nothing. */
  lemma {:induction false} TextParts(a: string, b: string)
    requires Valid(a + b)
    ensures Valid(a) && Valid(b) && Count(a + b) == Count(a) + Count(b)
    ensures TextValue(a + b) == TextValue(a) * Ten(Count(b)) + TextValue(b)
    decreases |b|
  {
    hide Valid, TextValue, Count, Ten;
    if b == [] {
      assert a + b == a;
      NoText(TextValue(a));
    } else {
      var init, c := b[..|b| - 1], b[|b| - 1];
      assert a + b == (a + init) + [c] && b == init + [c];
      OneCharacter(a + init, c);
      TextParts(a, init);
      AppendChar(init, c);
      OneCharacter(init, c);
      TenMore(TextValue(a), Count(init));
      assert c != '.' ==> (TextValue(a) * Ten(Count(init)) + TextValue(init)) * 10 == TextValue(a) * Ten(Count(init)) * 10 + TextValue(init) * 10;
    }
  }

  lemma NoText(v: nat)
    ensures Valid([]) && Count([]) == 0 && TextValue([]) == 0 && v * Ten(0) == v
  {
    TenZero(v);
  }

  lemma TenMore(v: nat, n: nat)
    ensures v * Ten(n) * 10 == v * Ten(n + 1)
  {
    assert Ten(n + 1) == 10 * Ten(n);
  }

  lemma AppendChar(s: string, c: char)
    requires Valid(s) && (if c == '.' then '.' !in s else '0' <= c <= '9' || IsUpper(c))
    ensures Valid(s + [c]) && ('.' in s + [c] <==> c == '.' || '.' in s)
    ensures TextValue(s + [c]) == if c == '.' then TextValue(s) else TextValue(s) * 10 + CharValue(c)
    ensures TextScale(s + [c]) == if '.' in s then TextScale(s) + 1 else 0
  {
    assert (s + [c])[..|s|] == s;
  }

  /** Two canonical numbers of one scale and value are limb for limb the same. */
  lemma CanonUnique(a: BcNum, b: BcNum)
    requires a.Canon() && b.Canon() && a.scale == b.scale && a.mag == b.mag
    ensures a.num == b.num && a.rdx == b.rdx
  {
    if a.mag > 0 {
      SameLength(a.num, b.num, a.rdx);
      SameLength(b.num, a.num, a.rdx);
      PPositive(0);
      ValInjective(a.num, b.num, BASE_POW);
    }
  }

  lemma SameLength(s: seq<int>, t: seq<int>, rdx: nat)
    requires Limbs(s) && Limbs(t) && V(s) == V(t) && rdx <= |t| && (|s| > rdx ==> s[|s| - 1] != 0)
    ensures |s| <= |t|
  {
    hide Val, Pow;
    PPositive(0);
    ValBound(t, BASE_POW);
    if |s| > rdx { ShortByValue(s, |t|); }
  }

  // ------------------------------------------------------------------- printing

  /** The decimal digits of a limb, least first, with zeros up to the limb's width. */
  method Buffer(limb: int) returns (ds: seq<int>)
    requires 0 <= limb < BASE_POW
    ensures |ds| == BASE_DIGS && Digits(ds, 10) && Val(ds, 10) == limb
  {
    hide Val, Pow;
    var n9, j := limb, 0;
    ds := [];
    EmptyTen();
    while n9 != 0 && j < BASE_DIGS
      invariant 0 <= j <= BASE_DIGS && |ds| == j && Digits(ds, 10) && 0 <= n9 < Ten(BASE_DIGS - j)
      invariant Val(ds, 10) + Ten(j) * n9 == limb
    {
      DigitStep(n9, j, BASE_DIGS - j - 1, Val(ds, 10));
      ValSnoc(ds, n9 % 10, 10);
      ds := ds + [n9 % 10];
      n9 := n9 / 10;
      j := j + 1;
    }
    EmptyTen();
    while |ds| < BASE_DIGS
      invariant |ds| <= BASE_DIGS && Digits(ds, 10) && Val(ds, 10) == limb
    {
      ValSnoc(ds, 0, 10);
      ds := ds + [0];
    }
  }

  lemma EmptyTen()
    ensures Val([], 10) == 0 && Ten(0) == 1
  {
  }

  lemma DigitStep(n9: nat, j: nat, k: nat, v: int)
    requires n9 < Ten(k + 1)
    ensures 0 <= n9 % 10 < 10 && 0 <= n9 / 10 < Ten(k)
    ensures v + Ten(j) * n9 == (v + Ten(j) * (n9 % 10)) + Ten(j + 1) * (n9 / 10)
  {
    var p := Ten(j);
    assert Ten(j + 1) == 10 * p && Ten(k + 1) == 10 * Ten(k);
    hide Ten, Pow;
    assert n9 == 10 * (n9 / 10) + n9 % 10;
    MulDistrib(p, 10 * (n9 / 10), n9 % 10);
    assert p * (10 * (n9 / 10)) == (10 * p) * (n9 / 10);
  }

  lemma PrintStep(ds: seq<int>, j: nat, t: int, v: nat)
    requires j < |ds| <= BASE_DIGS && v == t * Ten(|ds| - j - 1) + Val(ds[j + 1..], 10)
    ensures v * 10 + ds[j] == t * Ten(|ds| - j) + Val(ds[j..], 10)
  {
    assert ds[j..][1..] == ds[j + 1..];
    assert Ten(|ds| - j) == 10 * Ten(|ds| - j - 1);
    hide Ten, Val;
    MulAssoc(t, 10, Ten(|ds| - j - 1));
  }

  /** What a limb adds to the text: its digits down to `temp`, with the point in front when it is the
      first fraction limb. */
  method PrintLimb(out: string, limb: int, temp: nat, point: bool, zero: bool)
    returns (text: string, still: bool, ghost low: int)
    requires Valid(out) && 0 <= limb < BASE_POW && temp < BASE_DIGS
    requires zero ==> out == [] && !point
    requires point ==> '.' !in out
    requires if out == [] then zero || point else out[0] != '0'
    ensures Valid(text) && (still <==> text == []) && (text != [] ==> text[0] != '0')
    ensures '.' in text <==> '.' in out || point
    ensures TextScale(text) == if point then BASE_DIGS - temp else if '.' in out then TextScale(out) + (BASE_DIGS - temp) else 0
    ensures 0 <= low < Ten(temp) && TextValue(text) * Ten(temp) + low == TextValue(out) * BASE_POW + limb
  {
    hide Val, Ten, Pow, Valid, TextValue, TextScale;
    var ds := Buffer(limb);
    var j := BASE_DIGS;
    text, still := out, zero;
    EmptyTen();
    assert ds[j..] == [];
    TenZero(TextValue(out));
    PointScale(out);
    while j > temp
      invariant temp <= j <= BASE_DIGS && Valid(text) && (still ==> text == []) && (text != [] ==> text[0] != '0')
      invariant (text == [] ==> still || (point && j == BASE_DIGS)) && (still ==> zero)
      invariant '.' in text <==> '.' in out || (point && j < BASE_DIGS)
      invariant TextScale(text) == if point then BASE_DIGS - j else if '.' in out then TextScale(out) + (BASE_DIGS - j) else 0
      invariant TextValue(text) == TextValue(out) * Ten(BASE_DIGS - j) + Val(ds[j..], 10)
    {
      j := j - 1;
      PrintStep(ds, j, TextValue(out), TextValue(text));
      still := still && ds[j] == 0;
      if !still {
        if point && j == BASE_DIGS - 1 {
          AppendChar(text, '.');
          text := text + ['.'];
        }
        AppendChar(text, DigitChar(ds[j]));
        text := text + [DigitChar(ds[j])];
      } else {
        EmptyText();
      }
    }
    low := Val(ds[..temp], 10);
    LowDigits(ds, temp, TextValue(out), TextValue(text), limb);
  }

  lemma EmptyText()
    ensures Valid([]) && TextValue([]) == 0 && TextScale([]) == 0
  {
  }

  lemma PointScale(out: string)
    ensures '.' !in out ==> TextScale(out) == 0
  {
  }

  lemma LowDigits(ds: seq<int>, temp: nat, t: int, v: int, limb: int)
    requires |ds| == BASE_DIGS && Digits(ds, 10) && Val(ds, 10) == limb && temp < BASE_DIGS
    requires v == t * Ten(BASE_DIGS - temp) + Val(ds[temp..], 10)
    ensures var low := Val(ds[..temp], 10); 0 <= low < Ten(temp) && v * Ten(temp) + low == t * BASE_POW + limb
  {
    ValSplit(ds, temp, 10);
    ValBound(ds[..temp], 10);
    TenAdd(BASE_DIGS - temp, temp);
    assert Ten(temp) == Pow(10, temp) && Ten(BASE_DIGS) == BASE_POW;
    hide Val, Ten, Pow;
    var p, q, h := Ten(temp), Ten(BASE_DIGS - temp), Val(ds[temp..], 10);
    MulDistrib(p, t * q, h);
    MulAssoc(t, q, p);
    MulCommutes(p, t * q);
    MulCommutes(p, t * q + h);
  }

  /** The fraction digits written once limbs i and above are out. */
  function ScaleAt(i: nat, rdx: nat, scale: nat): nat {
    if i >= rdx then 0 else if i == 0 then scale else (rdx - i) * BASE_DIGS
  }

  lemma TextStep(num: seq<int>, i: nat, t: nat, v: nat, low: int, temp: nat, scale: nat, mag: nat)
    requires i < |num| && t == V(num[i + 1..]) && V(num) == mag * Ten(Gap(scale))
    requires 0 <= low < Ten(temp) && v * Ten(temp) + low == t * BASE_POW + num[i]
    requires temp == if i == 0 then Gap(scale) else 0
    ensures v == if i == 0 then mag else V(num[i..])
  {
    assert num[i..][1..] == num[i + 1..];
    assert V(num[i..]) == num[i] + BASE_POW * V(num[i + 1..]);
    MulCommutes(BASE_POW, t);
    TenZero(v);
    if i == 0 {
      assert num[0..] == num;
      NoRemainder(mag, v, low, Ten(temp));
    }
  }

  /** The digits of a number without its sign. */
  method PrintBody(n: BcNum) returns (out: string)
    requires n.Canon() && n.mag > 0
    ensures Valid(out) && TextValue(out) == n.mag && TextScale(out) == n.scale
    ensures out != [] && out[0] != '0' && ('.' in out <==> n.scale > 0)
  {
    hide Val, Ten, Pow, Valid, TextValue, TextScale, Holds, Rdx, Gap;
    var num, rdx, scale, i := n.num, n.rdx, n.scale, |n.num|;
    NumberFacts(n);
    ghost var low;
    var zero := true;
    out := [];
    EmptyText();
    EmptyValue();
    assert num[i..] == [];
    while i > 0
      invariant 0 <= i <= |num| && Valid(out) && (out == [] <==> zero) && (out != [] ==> out[0] != '0')
      invariant TextValue(out) == if i == 0 then n.mag else V(num[i..])
      invariant TextScale(out) == ScaleAt(i, rdx, scale) && ('.' in out <==> i < rdx)
    {
      i := i - 1;
      var point := i + 1 == rdx;
      zero := zero && !point;
      GapMod(scale);
      var temp := if i > 0 || scale % BASE_DIGS == 0 then 0 else BASE_DIGS - scale % BASE_DIGS;
      ghost var t := TextValue(out);
      ScaleStep(i, rdx, scale, temp);
      out, zero, low := PrintLimb(out, num[i], temp, point, zero);
      TextStep(num, i, t, TextValue(out), low, temp, scale, n.mag);
    }
    EmptyText();
  }

  lemma ScaleStep(i: nat, rdx: nat, scale: nat, temp: nat)
    requires rdx == Rdx(scale) && temp == (if i == 0 then Gap(scale) else 0)
    ensures i + 1 == rdx ==> ScaleAt(i, rdx, scale) == BASE_DIGS - temp
    ensures i + 1 < rdx ==> ScaleAt(i, rdx, scale) == ScaleAt(i + 1, rdx, scale) + (BASE_DIGS - temp)
  {
    assert rdx * BASE_DIGS == scale + Gap(scale);
    hide Rdx, Gap;
  }

  lemma NumberFacts(n: BcNum)
    requires n.Canon() && n.mag > 0
    ensures Limbs(n.num) && n.num != [] && n.rdx == Rdx(n.scale) <= |n.num| && V(n.num) == n.mag * Ten(Gap(n.scale))
    ensures n.rdx > 0 <==> n.scale > 0
  {
  }

  /** bc_num_printDecimal on a nonzero number. */
  method PrintDecimal(n: BcNum) returns (out: string)
    requires n.Canon() && n.mag > 0
    ensures n.neg ==> out != [] && out[0] == '-'
    ensures var body := if n.neg then out[1..] else out;
            Valid(body) && TextValue(body) == n.mag && TextScale(body) == n.scale
            && body != [] && body[0] != '0' && ('.' in body <==> n.scale > 0)
  {
    out := PrintBody(n);
    if n.neg {
      ghost var body := out;
      out := "-" + out;
      assert out[1..] == body;
    }
  }

  // -------------------------------------------------------------------- parsing

  predicate IsDigit(c: char) {
    '0' <= c <= '9' || IsUpper(c)
  }

  /** Text read from its front. */
  lemma {:induction false} Prepend(c: char, s: string)
    requires Valid([c] + s)
    ensures Valid(s) && (c == '.' || IsDigit(c)) && (c == '.' ==> '.' !in s)
    ensures Count([c] + s) == Count(s) + (if c == '.' then 0 else 1)
    ensures TextScale([c] + s) == if c == '.' then |s| else TextScale(s)
  {
    var t := [c] + s;
    var k := |t| - 1;
    if s == [] {
      assert t[..k] == [];
    } else {
      var init := s[..|s| - 1];
      assert t[..k] == [c] + init && t[k] == s[|s| - 1];
      Prepend(c, init);
      assert '.' in t[..k] <==> c == '.' || '.' in init;
      assert '.' in s <==> '.' in init || s[|s| - 1] == '.';
      assert '.' in t <==> c == '.' || '.' in s;
    }
  }

  function Weight(c: char, n: nat): (w: nat)
    requires c == '.' || IsDigit(c)
  {
    ProductZero(if c == '.' then 0 else CharValue(c), Ten(n));
    if c == '.' then 0 else CharValue(c) * Ten(n)
  }

  lemma {:induction false} PrependValue(c: char, s: string)
    requires Valid([c] + s)
    ensures Valid(s) && (c == '.' || IsDigit(c)) && TextValue([c] + s) == Weight(c, Count(s)) + TextValue(s)
  {
    var t := [c] + s;
    var k := |t| - 1;
    Prepend(c, s);
    if s == [] {
      assert t[..k] == [];
      TenZero(if c == '.' then 0 else CharValue(c));
    } else {
      var init := s[..|s| - 1];
      assert t[..k] == [c] + init && t[k] == s[|s| - 1];
      PrependValue(c, init);
      hide CharValue, Ten;
      WeightGrows(c, Count(init));
    }
  }

  lemma WeightGrows(c: char, n: nat)
    requires c == '.' || IsDigit(c)
    ensures Weight(c, n + 1) == 10 * Weight(c, n)
  {
    assert Ten(n + 1) == 10 * Ten(n);
    if c != '.' { MulAssoc(CharValue(c), 10, Ten(n)); }
  }

  /** Limbs filled with decimal digits below position exp, and zero above. */
  predicate FilledTo(limbs: seq<int>, exp: nat) {
    && Limbs(limbs)
    && (exp / BASE_DIGS < |limbs| ==> limbs[exp / BASE_DIGS] < Ten(exp % BASE_DIGS))
    && forall k :: exp / BASE_DIGS < k < |limbs| ==> limbs[k] == 0
  }

  /** One more digit, at position exp. */
  method PutDigit(limbs: seq<int>, exp: nat, dig: int, pow: nat) returns (r: seq<int>)
    requires FilledTo(limbs, exp) && 0 <= dig <= 9 && pow == Ten(exp % BASE_DIGS) && exp / BASE_DIGS < |limbs|
    ensures |r| == |limbs| && FilledTo(r, exp + 1) && V(r) == V(limbs) + dig * Ten(exp)
  {
    hide Val, Pow, Ten;
    var idx, e := exp / BASE_DIGS, exp % BASE_DIGS;
    r := limbs[idx := limbs[idx] + dig * pow];
    SetLimb(limbs, idx, limbs[idx] + dig * pow);
    LimbsAreDigits(idx);
    TenAdd(BASE_DIGS * idx, e);
    MulAssoc(dig, P(idx), pow);
    MulCommutes(dig, P(idx));
    MulAssoc(P(idx), dig, pow);
    DigitFits(limbs[idx], dig, e);
    NextPosition(exp);
    TenZero(0);
  }

  lemma DigitFits(x: int, dig: int, e: nat)
    requires 0 <= x < Ten(e) && 0 <= dig <= 9 && e < BASE_DIGS
    ensures 0 <= x + dig * Ten(e) < Ten(e + 1) <= BASE_POW
  {
    assert Ten(e + 1) == 10 * Ten(e);
    PowMonotone(10, e + 1, BASE_DIGS);
    hide Pow, Ten;
    MulMonotone(dig, 9, Ten(e));
    MulMonotone(0, dig, Ten(e));
  }

  lemma NextPosition(exp: nat)
    ensures var idx, e := exp / BASE_DIGS, exp % BASE_DIGS;
            if e + 1 == BASE_DIGS then (exp + 1) / BASE_DIGS == idx + 1 && (exp + 1) % BASE_DIGS == 0
            else (exp + 1) / BASE_DIGS == idx && (exp + 1) % BASE_DIGS == e + 1
    ensures exp == BASE_DIGS * (exp / BASE_DIGS) + exp % BASE_DIGS
  {
  }

  /** The digit loop of bc_num_parseDecimal, from the last character to the first. */
  method FillLimbs(val: string, gap: nat, len: nat) returns (limbs: seq<int>)
    requires Valid(val) && gap < BASE_DIGS && gap + Count(val) <= BASE_DIGS * len
    ensures |limbs| == len && Limbs(limbs) && V(limbs) == TextValue(val) * Ten(gap)
  {
    hide Val, Pow, Ten, Valid, TextValue, Count, FilledTo, TextScale;
    limbs := Zeros(len);
    StartFilled(len, gap);
    EmptyText();
    var exp: nat := gap;
    var pow, i := Ten(gap), |val|;
    PositionOf(gap);
    assert val[i..] == [];
    CountEmpty();
    while i > 0
      invariant 0 <= i <= |val| && |limbs| == len && FilledTo(limbs, exp) && pow == Ten(exp % BASE_DIGS)
      invariant Valid(val[i..]) && exp == gap + Count(val[i..]) && V(limbs) == TextValue(val[i..]) * Ten(gap)
    {
      ValidSuffix(val, i - 1);
      i := i - 1;
      var c := val[i];
      assert val[i..] == [c] + val[i + 1..];
      Prepend(c, val[i + 1..]);
      PrependValue(c, val[i + 1..]);
      if c != '.' {
        CountSuffix(val, i);
        PositionFits(exp, len);
        var dig := CharValue(c);
        limbs := PutDigit(limbs, exp, dig, pow);
        PlaceValue(dig, Count(val[i + 1..]), gap, TextValue(val[i + 1..]));
        NextPosition(exp);
        NextTen(exp % BASE_DIGS);
        if (exp + 1) % BASE_DIGS == 0 {
          pow := 1;
        } else {
          pow := pow * 10;
        }
        exp := exp + 1;
      }
    }
    assert val[0..] == val;
    FilledLimbs(limbs, exp);
  }

  lemma FilledLimbs(limbs: seq<int>, exp: nat)
    requires FilledTo(limbs, exp)
    ensures Limbs(limbs)
  {
  }

  lemma CountEmpty()
    ensures Count([]) == 0
  {
  }

  lemma NextTen(e: nat)
    ensures Ten(e + 1) == Ten(e) * 10 && Ten(0) == 1
  {
  }

  lemma PositionOf(gap: nat)
    requires gap < BASE_DIGS
    ensures gap / BASE_DIGS == 0 && gap % BASE_DIGS == gap
  {
  }

  lemma StartFilled(len: nat, gap: nat)
    requires gap < BASE_DIGS
    ensures FilledTo(Zeros(len), gap) && V(Zeros(len)) == 0
  {
    PPositive(0);
    ValZeros(Zeros(len), BASE_POW);
  }

  lemma {:induction false} ValidSuffix(s: string, i: nat)
    requires Valid(s) && i <= |s|
    ensures Valid(s[i..])
    decreases i
  {
    if i > 0 {
      ValidSuffix(s, i - 1);
      assert s[i - 1..] == [s[i - 1]] + s[i..];
      Prepend(s[i - 1], s[i..]);
    } else {
      assert s[0..] == s;
    }
  }

  /** A suffix that starts with a digit has fewer digits after it. */
  lemma {:induction false} CountSuffix(s: string, i: nat)
    requires Valid(s) && i < |s| && s[i] != '.'
    ensures Count(s[i + 1..]) < Count(s)
  {
    CountWhole(s, i);
    ValidSuffix(s, i);
    assert s[i..] == [s[i]] + s[i + 1..];
    Prepend(s[i], s[i + 1..]);
  }

  lemma {:induction false} CountWhole(s: string, i: nat)
    requires Valid(s) && i <= |s|
    ensures Count(s[i..]) <= Count(s)
    decreases i
  {
    if i > 0 {
      CountWhole(s, i - 1);
      ValidSuffix(s, i - 1);
      assert s[i - 1..] == [s[i - 1]] + s[i..];
      Prepend(s[i - 1], s[i..]);
    } else {
      assert s[0..] == s;
    }
  }

  lemma PositionFits(exp: nat, len: nat)
    requires exp < BASE_DIGS * len
    ensures exp / BASE_DIGS < len
  {
  }

  lemma PlaceValue(dig: int, n: nat, gap: nat, v: int)
    ensures v * Ten(gap) + dig * Ten(gap + n) == (dig * Ten(n) + v) * Ten(gap)
  {
    TenAdd(n, gap);
    hide Ten;
    MulAssoc(dig, Ten(n), Ten(gap));
  }

  /** Leading zeros mean nothing. */
  method SkipZeros(s: string) returns (val: string)
    requires Valid(s)
    ensures Valid(val) && TextValue(val) == TextValue(s) && TextScale(val) == TextScale(s)
    ensures val != [] ==> val[0] != '0'
  {
    hide Valid, TextValue, TextScale, Count;
    val := s;
    while val != [] && val[0] == '0'
      invariant Valid(val) && TextValue(val) == TextValue(s) && TextScale(val) == TextScale(s)
      decreases |val|
    {
      assert val == ['0'] + val[1..];
      Prepend('0', val[1..]);
      PrependValue('0', val[1..]);
      val := val[1..];
    }
  }

  /** The scale: the length after the point, wherever the point is. */
  lemma {:induction false} ScaleAtPoint(s: string, p: nat)
    requires Valid(s) && p < |s| && s[p] == '.'
    ensures TextScale(s) == |s| - p - 1 && Count(s) == |s| - 1
    decreases p
  {
    assert s == [s[0]] + s[1..];
    Prepend(s[0], s[1..]);
    if p > 0 {
      PointOnce(s, p);
      ScaleAtPoint(s[1..], p - 1);
    } else {
      CountPlain(s[1..]);
    }
  }

  lemma PointOnce(s: string, p: nat)
    requires Valid(s) && 0 < p < |s| && s[p] == '.'
    ensures s[0] != '.'
  {
    assert s == [s[0]] + s[1..];
    Prepend(s[0], s[1..]);
    assert s[1..][p - 1] == '.';
  }

  lemma {:induction false} CountPlain(s: string)
    requires Valid(s) && '.' !in s
    ensures Count(s) == |s| && TextScale(s) == 0
  {
    if s != [] { CountPlain(s[..|s| - 1]); }
  }

  /** All digits zero means value zero, and one other digit makes it positive. */
  lemma {:induction false} ZeroText(s: string)
    requires Valid(s)
    ensures TextValue(s) == 0 <==> forall i :: 0 <= i < |s| ==> s[i] == '0' || s[i] == '.'
  {
    if s != [] {
      var k := |s| - 1;
      ZeroText(s[..k]);
      assert forall i :: 0 <= i < k ==> s[i] == s[..k][i];
      assert s[k] != '.' ==> (CharValue(s[k]) == 0 <==> s[k] == '0');
    }
  }

  lemma FirstDigitCounts(s: string)
    requires Valid(s) && s != [] && s[0] != '.' && s[0] != '0'
    ensures Count(s) > 0 && TextValue(s) >= Ten(Count(s) - 1)
  {
    assert s == [s[0]] + s[1..];
    Prepend(s[0], s[1..]);
    PrependValue(s[0], s[1..]);
    MulMonotone(1, CharValue(s[0]), Ten(Count(s[1..])));
  }

  /** How many limbs the text needs. */
  lemma LimbsNeeded(digits: nat, scale: nat, len: nat)
    requires scale <= digits && len == (digits + (BASE_DIGS - 1) + Gap(scale)) / BASE_DIGS
    ensures Gap(scale) + digits <= BASE_DIGS * len && Rdx(scale) <= len
    ensures digits == scale ==> len == Rdx(scale)
    ensures digits > 0 && len > 0 ==> BASE_DIGS * (len - 1) <= Gap(scale) + digits - 1
  {
  }

  /** The top limb holds the first digit. */
  lemma TopHoldsFirst(limbs: seq<int>, v: nat, digits: nat, gap: nat)
    requires Limbs(limbs) && limbs != [] && digits > 0 && V(limbs) == v * Ten(gap) && v >= Ten(digits - 1)
    requires BASE_DIGS * (|limbs| - 1) <= gap + digits - 1
    ensures limbs[|limbs| - 1] != 0
  {
    hide Val, Pow, Ten;
    var k := |limbs| - 1;
    LimbsAreDigits(k);
    TenAdd(gap + digits - 1 - BASE_DIGS * k, BASE_DIGS * k);
    MulGrows(Ten(gap + digits - 1 - BASE_DIGS * k), P(k));
    TenAdd(digits - 1, gap);
    MulMonotone(Ten(digits - 1), v, Ten(gap));
    PPositive(0);
    ValBound(limbs[..k], BASE_POW);
    if limbs[k] == 0 { TopZero(limbs); }
  }

  /** Where the point is, if there is one. */
  method FindPoint(val: string) returns (p: nat)
    ensures p <= |val| && (p < |val| ==> val[p] == '.') && (p == |val| ==> '.' !in val)
    ensures forall k :: 0 <= k < p ==> val[k] != '.'
  {
    p := 0;
    while p < |val| && val[p] != '.'
      invariant p <= |val| && forall k :: 0 <= k < p ==> val[k] != '.'
    {
      p := p + 1;
    }
  }

  /** The first character that is neither zero nor the point. */
  method FirstNonzero(val: string) returns (i: nat, zero: bool)
    ensures i <= |val| && (zero <==> i == |val|)
    ensures forall k :: 0 <= k < i ==> val[k] == '0' || val[k] == '.'
    ensures i < |val| ==> val[i] != '0' && val[i] != '.'
  {
    i, zero := 0, true;
    while i < |val| && zero
      invariant i <= |val| && (!zero ==> i < |val| && val[i] != '0' && val[i] != '.')
      invariant forall k :: 0 <= k < i ==> val[k] == '0' || val[k] == '.'
      decreases |val| - i, zero
    {
      zero := val[i] == '0' || val[i] == '.';
      if zero {
        i := i + 1;
      }
    }
  }

  /** The three numbers that shape the limbs. */
  method Measure(val: string) returns (zero: bool, scale: nat, digits: nat)
    requires Valid(val) && val != [] && val[0] != '0'
    ensures (zero <==> TextValue(val) == 0) && scale == TextScale(val)
    ensures !zero ==> digits == Count(val) && scale <= digits
    ensures val[0] == '.' ==> digits == scale
  {
    hide Valid, TextValue, TextScale, Count;
    var point := FindPoint(val);
    var i;
    i, zero := FirstNonzero(val);
    ZeroText(val);
    var hasPoint := point < |val|;
    if hasPoint {
      ScaleAtPoint(val, point);
    } else {
      CountPlain(val);
    }
    scale := if hasPoint then |val| - (point + 1) else 0;
    var rest := |val| - (if point == 0 then 0 else i);
    digits := if hasPoint && rest > 0 then rest - 1 else rest;
  }

  /** bc_num_parseDecimal: reads any digits-and-point text, into canonical form. */
  method ParseDecimal(s: string) returns (n: BcNum)
    requires Valid(s)
    ensures fresh(n) && n.Canon() && !n.neg && n.scale == TextScale(s) && n.mag == TextValue(s)
  {
    hide Val, Pow, Ten, Valid, TextValue, TextScale, Count, Holds, Rdx, Gap;
    n := new BcNum();
    var val := SkipZeros(s);
    EmptyText();
    if val == [] {
      return;
    }
    var zero, scale, digits := Measure(val);
    n.scale := scale;
    ZeroHolds([], 0, 0, 0, scale);
    if !zero {
      GapMod(scale);
      var gap := if scale % BASE_DIGS == 0 then 0 else BASE_DIGS - scale % BASE_DIGS;
      var len := (digits + (BASE_DIGS - 1) + gap) / BASE_DIGS;
      n.mag := TextValue(val);
      n.rdx := Rdx(scale);
      n.num := ParsedLimbs(val, scale, digits, gap, len);
    }
  }

  method ParsedLimbs(val: string, scale: nat, digits: nat, gap: nat, len: nat) returns (limbs: seq<int>)
    requires Valid(val) && val != [] && val[0] != '0' && TextValue(val) > 0
    requires scale == TextScale(val) <= digits == Count(val) && (val[0] == '.' ==> digits == scale)
    requires gap == Gap(scale) && len == (digits + (BASE_DIGS - 1) + gap) / BASE_DIGS
    ensures Holds(limbs, Rdx(scale), scale, TextValue(val)) && limbs != []
    ensures |limbs| > Rdx(scale) ==> limbs[|limbs| - 1] != 0
  {
    hide Val, Pow, Ten, Valid, TextValue, TextScale, Count, Holds, Rdx, Gap;
    LimbsNeeded(digits, scale, len);
    limbs := FillLimbs(val, gap, len);
    EmptyValue();
    ProductZero(TextValue(val), Ten(gap));
    if len > Rdx(scale) {
      FirstDigitCounts(val);
      TopHoldsFirst(limbs, TextValue(val), digits, gap);
    }
    ItHolds(limbs, Rdx(scale), scale, TextValue(val));
  }

  /** Printing and parsing again gives back every limb. */
  method RoundTrip(n: BcNum) returns (m: BcNum)
    requires n.Canon() && n.mag > 0
    ensures fresh(m) && m.num == n.num && m.rdx == n.rdx && m.scale == n.scale && !m.neg
  {
    var text := PrintDecimal(n);
    m := ParseDecimal(if n.neg then text[1..] else text);
    CanonUnique(m, n);
  }
}
