/** The three matchers on a fresh automaton, in terms of the expression. */
module ReSearch {
  import opened ReTree
  import opened ReSets
  import opened ReHat
  import opened ReAutomaton
  import opened ReMatch
  import opened ReStray
  import opened ReLongest
  import opened ReLeaf

  /** The unanchored matcher: true just when some prefix of HAT, string, NUL is any letters followed by a word of s,
      unless the stray entry gets in the way. */
  method MatchRe(s: Re, p: seq<int>) returns (f: Fa, ok: bool, found: bool)
    requires NoFinal(s) && Text(p)
    ensures !ok ==> f.curstat == 31
    ensures ok ==> (found <==> SeenBy(Renumber(s, 1), Ended0(p), |p| + 1))
    ensures ok && (Sure(s, false, p) || NeverCounts(s)) ==> (found <==> Found(s, p))
    ensures ok && s.Leaf? && s.sym.NCcl? ==> (found <==> exists i :: 0 <= i < |p| && p[i] !in s.sym.chars)
    ensures ok && ByteLeaf(s) && s.sym.Ccl? ==> (found <==> exists i :: 0 <= i < |p| && p[i] in s.sym.chars)
    ensures ok && ByteLeaf(s) ==> (found <==> exists i :: 0 <= i < |p| && Lang(s, [p[i]]))
  {
    hide ByteLeaf, SeenBy, Found, Sure, NeverCounts;
    var work := new Collector();
    f := new Fa.Mkdfa(s, false, work);
    ok, found := Match(f, p);
    if Sure(s, false, p) { SureFound(s, p); }
    if NeverCounts(s) { CountsFound(s, p); }
    LeafIsFound(s, p);
  }

  /** The anchored matcher is leftmost and longest, unless the stray entry gets in the way. */
  method PmatchRe(s: Re, p: seq<int>) returns (f: Fa, ok: bool, found: bool, patbeg: nat, patlen: int)
    requires NoFinal(s) && Text(p)
    ensures !ok ==> f.curstat == 31
    ensures ok ==> Answer(s, p, 0, found, patbeg, patlen)
    ensures ok && (Sure(s, true, p) || SkipsStray(s)) ==> RightAnswer(s, p, 0, found, patbeg, patlen)
    ensures ok && s.Leaf? && s.sym.NCcl? ==> FirstOf(p, s.sym.chars, false, found, patbeg, patlen)
    ensures ok && ByteLeaf(s) && s.sym.Ccl? ==> FirstOf(p, s.sym.chars, true, found, patbeg, patlen)
  {
    hide ByteLeaf, FirstOf, MatchAt, Hits, Sure, SkipsStray, RightAnswer;
    var work := new Collector();
    f := new Fa.Mkdfa(s, true, work);
    ok, found, patbeg, patlen := Pmatch(f, p);
    if ok { CheckedAnswer(s, p, 0, found, patbeg, patlen); }
    LeafIsAnswered(s, p, 0, found, patbeg, patlen);
  }

  /** And so is its variant for nonempty matches. */
  method NematchRe(s: Re, p: seq<int>) returns (f: Fa, ok: bool, found: bool, patbeg: nat, patlen: int)
    requires NoFinal(s) && Text(p)
    ensures !ok ==> f.curstat == 31
    ensures ok ==> Answer(s, p, 1, found, patbeg, patlen)
    ensures ok && (Sure(s, true, p) || SkipsStray(s)) ==> RightAnswer(s, p, 1, found, patbeg, patlen)
    ensures ok && s.Leaf? && s.sym.NCcl? ==> FirstOf(p, s.sym.chars, false, found, patbeg, patlen)
    ensures ok && ByteLeaf(s) && s.sym.Ccl? ==> FirstOf(p, s.sym.chars, true, found, patbeg, patlen)
  {
    hide ByteLeaf, FirstOf, MatchAt, Hits, Sure, SkipsStray, RightAnswer;
    var work := new Collector();
    f := new Fa.Mkdfa(s, true, work);
    ok, found, patbeg, patlen := Nematch(f, p);
    if ok { CheckedAnswer(s, p, 1, found, patbeg, patlen); }
    LeafIsAnswered(s, p, 1, found, patbeg, patlen);
  }

  lemma LeafIsFound(s: Re, p: seq<int>)
    requires Text(p)
    ensures s.Leaf? && s.sym.NCcl? ==> ByteLeaf(s) && (Found(s, p) <==> exists i :: 0 <= i < |p| && p[i] !in s.sym.chars)
    ensures ByteLeaf(s) && s.sym.Ccl? ==> (Found(s, p) <==> exists i :: 0 <= i < |p| && p[i] in s.sym.chars)
    ensures ByteLeaf(s) ==> s.Leaf? && Sure(s, false, p) && (Found(s, p) <==> exists i :: 0 <= i < |p| && Lang(s, [p[i]]))
  {
    hide Sure, Found, Lang;
    if ByteLeaf(s) {
      LeafSure(s, p, false);
      LeafFound(s, p);
    }
    if s.Leaf? && (s.sym.NCcl? || s.sym.Ccl?) { ClassFound(s.sym.chars, s.idx, p); }
  }

  lemma LeafIsAnswered(s: Re, p: seq<int>, least: nat, found: bool, patbeg: nat, patlen: int)
    requires Text(p) && least <= 1
    ensures ByteLeaf(s) ==> s.Leaf? && Sure(s, true, p)
    ensures s.Leaf? && s.sym.NCcl? ==> ByteLeaf(s)
    ensures s.Leaf? && s.sym.NCcl? && RightAnswer(s, p, least, found, patbeg, patlen) ==>
              FirstOf(p, s.sym.chars, false, found, patbeg, patlen)
    ensures ByteLeaf(s) && s.sym.Ccl? && RightAnswer(s, p, least, found, patbeg, patlen) ==>
              FirstOf(p, s.sym.chars, true, found, patbeg, patlen)
  {
    hide Sure, RightAnswer, FirstOf;
    if ByteLeaf(s) { LeafSure(s, p, true); }
    if s.Leaf? && (s.sym.NCcl? || s.sym.Ccl?) { ClassAnswer(s.sym.chars, s.idx, p, least, found, patbeg, patlen); }
  }

  lemma CheckedAnswer(s: Re, p: seq<int>, least: nat, found: bool, patbeg: nat, patlen: int)
    requires NoFinal(s) && Text(p) && least <= 1 && Answer(s, p, least, found, patbeg, patlen)
    ensures Sure(s, true, p) || SkipsStray(s) ==> RightAnswer(s, p, least, found, patbeg, patlen)
  {
    hide Answer, RightAnswer, Sure, SkipsStray;
    if Sure(s, true, p) { SureAnswer(s, p, least, found, patbeg, patlen); }
    if SkipsStray(s) { AnchoredRightIff(s, least); }
  }
}
