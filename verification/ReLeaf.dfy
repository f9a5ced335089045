/** The letters that single leaves take, the words of the simplest expressions, and what the matchers find for
    an expression of one leaf. */
module ReLeaf {
  import opened ReTree
  import opened ReSets
  import opened ReHat
  import opened ReAutomaton
  import opened ReMatch
  import opened ReStray

  /** Bytes are letters, and so is the hat, which is none of them; the stray entry sits at byte 2. */
  lemma Letters(c: int)
    ensures 0 <= c < 256 || c == 261 ==> Letter(c)
    ensures HAT == 261 && STRAY == 2 && NSTATES == 32 && NCHARS == 259
  {
  }

  /** The one-letter words of each kind of leaf; a leaf without letters has none. */
  lemma LeafLetters(idx: nat, x: int, cs: seq<int>, c: int)
    requires c != END
    ensures Lang(Leaf(Char(x), idx), [c]) <==> c == x
    ensures Lang(Leaf(Dot, idx), [c]) <==> c != 0 && c != HAT
    ensures Lang(Leaf(All, idx), [c]) <==> c != 0
    ensures Lang(Leaf(Ccl(cs), idx), [c]) <==> c in cs
    ensures Lang(Leaf(NCcl(cs), idx), [c]) <==> c !in cs && c != 0 && c != HAT
    ensures !Lang(Leaf(EmptyRe, idx), [c])
  {
  }

  /** A class and its complement share out the letters other than NUL and the hat. */
  lemma Complement(idx: nat, cs: seq<int>, c: int)
    requires c != 0 && c != HAT && c != END
    ensures Lang(Leaf(Ccl(cs), idx), [c]) <==> !Lang(Leaf(NCcl(cs), idx), [c])
  {
    LeafLetters(idx, 0, cs, c);
  }

  /** No other word than one letter, but for the leaf of an empty expression or class, which is the empty word. */
  lemma LeafWords(sym: Sym, idx: nat, w: seq<int>)
    requires |w| != 1
    ensures Lang(Leaf(sym, idx), w) <==> w == [] && (sym == EmptyRe || sym == Ccl([]))
  {
  }

  /** Letter after letter, either letter, and a letter or nothing. */
  lemma {:induction false} PairWords(a: Sym, b: Sym, i: nat, j: nat, x: int, y: int)
    requires !EmptySym(a) && !EmptySym(b)
    ensures Lang(Cat(Leaf(a, i), Leaf(b, j)), [x, y]) <==> Lang(Leaf(a, i), [x]) && Lang(Leaf(b, j), [y])
    ensures Lang(Or(Leaf(a, i), Leaf(b, j)), [x]) <==> Lang(Leaf(a, i), [x]) || Lang(Leaf(b, j), [x])
    ensures Lang(Quest(Leaf(a, i)), [x]) <==> Lang(Leaf(a, i), [x])
    ensures Lang(Quest(Leaf(a, i)), []) && !Lang(Quest(Leaf(a, i)), [x, y])
  {
    var w := [x, y];
    assert w[..1] == [x] && w[1..] == [y];
    assert forall k :: 0 <= k <= 2 && k != 1 ==> |w[..k]| != 1;
  }

  /** A repeated leaf takes any number of its letters. */
  lemma {:induction false} StarWords(a: Sym, i: nat, w: seq<int>)
    requires !EmptySym(a)
    ensures Lang(Star(Leaf(a, i)), w) <==> forall k :: 0 <= k < |w| ==> Lang(Leaf(a, i), [w[k]])
    decreases |w|
  {
    var v := Star(Leaf(a, i));
    if w != [] {
      StarWords(a, i, w[1..]);
      assert w[..1] == [w[0]];
      if Lang(v, w) {
        var k :| 0 < k <= |w| && Lang(Leaf(a, i), w[..k]) && Lang(v, w[k..]);
        assert |w[..k]| == 1;
      }
      if forall k :: 0 <= k < |w| ==> Lang(Leaf(a, i), [w[k]]) {
        forall k | 0 <= k < |w[1..]| ensures Lang(Leaf(a, i), [w[1..][k]]) {
          assert w[1..][k] == w[k + 1];
        }
        assert Lang(Leaf(a, i), w[..1]) && Lang(v, w[1..]);
      }
      if Lang(v, w[1..]) && Lang(Leaf(a, i), [w[0]]) {
        forall k | 0 <= k < |w| ensures Lang(Leaf(a, i), [w[k]]) {
          if k > 0 { assert w[1..][k - 1] == w[k]; }
        }
      }
    }
  }

  /** With a plus sign there must be at least one. */
  lemma {:induction false} PlusWords(a: Sym, i: nat, w: seq<int>)
    requires !EmptySym(a)
    ensures Lang(Plus(Leaf(a, i)), w) <==> w != [] && Lang(Star(Leaf(a, i)), w)
  {
    var v, l := Star(Leaf(a, i)), Leaf(a, i);
    if Lang(Plus(l), w) {
      var k :| 0 <= k <= |w| && Lang(l, w[..k]) && Lang(v, w[k..]);
      assert |w[..k]| == 1;
    }
    if w != [] && Lang(v, w) {
      var k :| 0 < k <= |w| && Lang(l, w[..k]) && Lang(v, w[k..]);
    }
  }

  // --------------------------------------------------------------- what is found

  /** A leaf that takes characters of a string only. */
  predicate ByteLeaf(s: Re) {
    s.Leaf? &&
    match s.sym
    case Char(c) => 0 < c < 256
    case Dot => true
    case Ccl(cs) => cs != [] && forall k :: 0 <= k < |cs| ==> 0 < cs[k] < 256
    case NCcl(_) => true
    case _ => false
  }

  lemma ByteLeafFacts(s: Re)
    requires ByteLeaf(s)
    ensures !EmptySym(s.sym) && !Takes(s.sym, HAT) && !Takes(s.sym, 0) && NoFinal(s) && HatFree(s)
  {
  }

  /** Its matches in a string are the characters it takes. */
  lemma LeafMatchAt(s: Re, p: seq<int>, i: nat, n: nat)
    requires ByteLeaf(s)
    ensures MatchAt(s, p, i, n) <==> n == 1 && i < |p| && Lang(s, [p[i]])
  {
    ByteLeafFacts(s);
    if i + n <= |p| && n == 1 { assert p[i..i + n] == [p[i]]; }
    if i + n == |p| && n == 0 { assert p[i..] + [0] == [0]; }
  }

  lemma LeafSomewhere(s: Re, x: seq<int>)
    requires ByteLeaf(s)
    ensures SomewhereIn(s, x) ==> x != [] && Lang(s, [x[|x| - 1]])
    ensures x != [] && NoNul(x[..|x| - 1]) && Lang(s, [x[|x| - 1]]) ==> SomewhereIn(s, x)
  {
    ByteLeafFacts(s);
    if x != [] && Lang(s, [x[|x| - 1]]) {
      assert x[|x| - 1..] == [x[|x| - 1]];
      assert Lang(s, x[|x| - 1..]);
    }
    if SomewhereIn(s, x) {
      var k :| 0 <= k <= |x| && Lang(s, x[k..]);
      assert |x[k..]| == 1;
      assert x[k..] == [x[|x| - 1]];
    }
  }

  /** There is one to be found just when the string holds a character that it takes. */
  lemma LeafFound(s: Re, p: seq<int>)
    requires ByteLeaf(s) && Text(p)
    ensures Found(s, p) <==> exists i :: 0 <= i < |p| && Lang(s, [p[i]])
  {
    hide SomewhereIn;
    ByteLeafFacts(s);
    assert !Lang(s, [HAT]) && !Lang(s, [0]);
    hide Lang;
    if Found(s, p) {
      var k :| 0 <= k <= |p| + 1 && SomewhereIn(s, [HAT] + Ended0(p)[..k]);
      LeafSomewhere(s, [HAT] + Ended0(p)[..k]);
    }
    if exists i :: 0 <= i < |p| && Lang(s, [p[i]]) {
      var i :| 0 <= i < |p| && Lang(s, [p[i]]);
      var x := [HAT] + Ended0(p)[..i + 1];
      assert x[..|x| - 1] == [HAT] + p[..i];
      LeafSomewhere(s, x);
    }
  }

  lemma LeafAnswer(s: Re, p: seq<int>, least: nat, found: bool, patbeg: nat, patlen: int)
    requires ByteLeaf(s) && least <= 1 && RightAnswer(s, p, least, found, patbeg, patlen)
    ensures found <==> exists i :: 0 <= i < |p| && Lang(s, [p[i]])
    ensures found ==> patlen == 1 && patbeg < |p| && Lang(s, [p[patbeg]]) && forall j :: 0 <= j < patbeg ==> !Lang(s, [p[j]])
  {
    hide MatchAt, Lang;
    forall i: nat, n: nat ensures MatchAt(s, p, i, n) <==> n == 1 && i < |p| && Lang(s, [p[i]]) {
      LeafMatchAt(s, p, i, n);
    }
    if i :| 0 <= i < |p| && Lang(s, [p[i]]) {
      assert MatchAt(s, p, i, 1);
    }
    if found {
      assert MatchAt(s, p, patbeg, patlen);
      forall j | 0 <= j < patbeg ensures !Lang(s, [p[j]]) { assert !MatchAt(s, p, j, 1); }
    }
  }

  /** What a class finds, letters spelled out: the first character in it, or outside it if it is negated. */
  lemma ClassFound(cs: seq<int>, idx: nat, p: seq<int>)
    requires Text(p)
    ensures Found(Leaf(NCcl(cs), idx), p) <==> exists i :: 0 <= i < |p| && p[i] !in cs
    ensures ByteLeaf(Leaf(Ccl(cs), idx)) ==> (Found(Leaf(Ccl(cs), idx), p) <==> exists i :: 0 <= i < |p| && p[i] in cs)
  {
    hide Found, ByteLeaf, Lang;
    NegatedIsByteLeaf(cs, idx);
    LeafFound(Leaf(NCcl(cs), idx), p);
    ClassLetters(cs, idx, p);
    if ByteLeaf(Leaf(Ccl(cs), idx)) { PlainClassFound(cs, idx, p); }
  }

  lemma PlainClassFound(cs: seq<int>, idx: nat, p: seq<int>)
    requires Text(p) && ByteLeaf(Leaf(Ccl(cs), idx))
    ensures Found(Leaf(Ccl(cs), idx), p) <==> exists i :: 0 <= i < |p| && p[i] in cs
  {
    hide Found, ByteLeaf, Lang;
    LeafFound(Leaf(Ccl(cs), idx), p);
    ClassLetters(cs, idx, p);
    if i :| 0 <= i < |p| && p[i] in cs {
      assert Lang(Leaf(Ccl(cs), idx), [p[i]]);
    }
  }

  lemma ClassLetters(cs: seq<int>, idx: nat, p: seq<int>)
    requires Text(p)
    ensures forall i :: 0 <= i < |p| ==> (Lang(Leaf(NCcl(cs), idx), [p[i]]) <==> p[i] !in cs)
    ensures forall i :: 0 <= i < |p| ==> (Lang(Leaf(Ccl(cs), idx), [p[i]]) <==> p[i] in cs)
  {
    forall i | 0 <= i < |p|
      ensures Lang(Leaf(NCcl(cs), idx), [p[i]]) <==> p[i] !in cs
      ensures Lang(Leaf(Ccl(cs), idx), [p[i]]) <==> p[i] in cs
    {
      LeafLetters(idx, 0, cs, p[i]);
    }
  }

  lemma NegatedIsByteLeaf(cs: seq<int>, idx: nat)
    ensures ByteLeaf(Leaf(NCcl(cs), idx))
  {
  }

  /** The match is the first character inside, or outside, the class. */
  ghost predicate FirstOf(p: seq<int>, cs: seq<int>, inside: bool, found: bool, patbeg: nat, patlen: int) {
    && (found ==> patlen == 1 && patbeg < |p| && (p[patbeg] in cs <==> inside))
    && forall j :: 0 <= j < (if found then patbeg else |p|) && j < |p| ==> (p[j] in cs <==> !inside)
  }

  lemma ClassAnswer(cs: seq<int>, idx: nat, p: seq<int>, least: nat, found: bool, patbeg: nat, patlen: int)
    requires Text(p) && least <= 1
    ensures RightAnswer(Leaf(NCcl(cs), idx), p, least, found, patbeg, patlen) ==>
              FirstOf(p, cs, false, found, patbeg, patlen)
    ensures ByteLeaf(Leaf(Ccl(cs), idx)) && RightAnswer(Leaf(Ccl(cs), idx), p, least, found, patbeg, patlen) ==>
              FirstOf(p, cs, true, found, patbeg, patlen)
  {
    hide RightAnswer, ByteLeaf, Lang;
    NegatedIsByteLeaf(cs, idx);
    ClassLetters(cs, idx, p);
    var s, t := Leaf(NCcl(cs), idx), Leaf(Ccl(cs), idx);
    if RightAnswer(s, p, least, found, patbeg, patlen) { LeafAnswer(s, p, least, found, patbeg, patlen); }
    if ByteLeaf(t) && RightAnswer(t, p, least, found, patbeg, patlen) { LeafAnswer(t, p, least, found, patbeg, patlen); }
  }

  /** Two leaves in a row take two letters. */
  lemma CatLeaves(l: Re, r: Re, w: seq<int>)
    requires l.Leaf? && r.Leaf? && !EmptySym(l.sym) && !EmptySym(r.sym)
    ensures Lang(Cat(l, r), w) <==> |w| == 2 && Lang(l, [w[0]]) && Lang(r, [w[1]])
  {
    if |w| == 2 { PairWords(l.sym, r.sym, l.idx, r.idx, w[0], w[1]); assert w == [w[0], w[1]]; }
    if Lang(Cat(l, r), w) {
      var k :| 0 <= k <= |w| && Lang(l, w[..k]) && Lang(r, w[k..]);
      assert |w[..k]| == 1 && |w[k..]| == 1;
    }
  }

  /** ^ holds a match to the start of the string. */
  lemma HatMatchAt(h: nat, s: Re, p: seq<int>, i: nat, n: nat)
    requires ByteLeaf(s) && Text(p)
    ensures MatchAt(Cat(Leaf(Char(HAT), h), s), p, i, n) <==> i == 0 && n == 1 && p != [] && Lang(s, [p[0]])
  {
    ByteLeafFacts(s);
    var v := Cat(Leaf(Char(HAT), h), s);
    forall w ensures Lang(v, w) <==> |w| == 2 && w[0] == HAT && Lang(s, [w[1]]) {
      CatLeaves(Leaf(Char(HAT), h), s, w);
    }
    hide Lang;
    if i + n <= |p| && n == 1 { assert ([HAT] + p[i..i + n])[1] == p[i]; }
    if i == 0 && i + n == |p| && n == 0 { assert ([HAT] + (p[i..] + [0]))[1] == 0; }
  }

  /** $ holds it to the end: it takes the NUL, which is no part of the length. */
  lemma DollarMatchAt(s: Re, h: nat, p: seq<int>, i: nat, n: nat)
    requires ByteLeaf(s) && Text(p)
    ensures MatchAt(Cat(s, Leaf(Char(0), h)), p, i, n) <==> n == 1 && i + 1 == |p| && Lang(s, [p[i]])
  {
    ByteLeafFacts(s);
    var v := Cat(s, Leaf(Char(0), h));
    forall w ensures Lang(v, w) <==> |w| == 2 && Lang(s, [w[0]]) && w[1] == 0 {
      CatLeaves(s, Leaf(Char(0), h), w);
    }
    assert !Lang(s, [HAT]);
    hide Lang;
    if i + n == |p| && n == 1 {
      assert (p[i..] + [0])[0] == p[i] && (p[i..] + [0])[1] == 0;
    }
  }

  /** No byte of a text does harm to a leaf that takes characters only. */
  lemma LeafSure(s: Re, p: seq<int>, anchored: bool)
    requires ByteLeaf(s)
    ensures NoFinal(s) && Sure(s, anchored, p)
  {
    hide Sure;
    ByteLeafFacts(s);
    SureWithoutHat(s, anchored, p);
  }
}
