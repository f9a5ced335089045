/** Longest matches from a state, as the code takes them and as they should be, and for which expressions the two
    anchored matchers are right on every text. */
module ReLongest {
  import opened ReTree
  import opened ReSets
  import opened ReHat
  import opened ReAutomaton
  import opened ReMatch
  import opened ReStray

  /** One transition: the code's, or the step alone. */
  function Move(r: Re, code: bool, t: set<nat>, c: int): set<nat> {
    if code then Turn(r, true, t, c) else Step(r, t, c)
  }

  function Walk(r: Re, code: bool, t: set<nat>, w: seq<int>): set<nat> {
    if code then Ran(r, true, t, w) else Run(r, t, w)
  }

  lemma WalkFront(r: Re, code: bool, t: set<nat>, c: int, w: seq<int>)
    ensures Walk(r, code, t, [c] + w) == Walk(r, code, Move(r, code, t, c), w) && Walk(r, code, t, []) == t
  {
    if code { RanFront(r, true, t, c, w); } else { RunFront(r, t, c, w); }
  }

  /** The first n characters of p, or all of them and the NUL, lead from t to FINAL. */
  predicate TakesFrom(r: Re, code: bool, t: set<nat>, p: seq<int>, n: nat) {
    n <= |p| && (Accept(r) in Walk(r, code, t, p[..n]) || (n == |p| && Accept(r) in Walk(r, code, t, p + [0])))
  }

  /** The greatest length taken, or -1. */
  function Best(r: Re, code: bool, t: set<nat>, p: seq<int>): (n: int)
    ensures -1 <= n <= |p|
    decreases |p|
  {
    if p == [] then if Accept(r) in t || Accept(r) in Step(r, t, 0) then 0 else -1
    else
      var n := Best(r, code, Move(r, code, t, p[0]), p[1..]);
      if n >= 0 then n + 1 else if Accept(r) in t then 0 else -1
  }

  lemma TakesNothing(r: Re, code: bool, t: set<nat>)
    ensures TakesFrom(r, code, t, [], 0) <==> Accept(r) in t || Accept(r) in Step(r, t, 0)
  {
    hide Step, Ran, Run;
    var e: seq<int> := [];
    assert e[..0] == e && e + [0] == [0] + e;
    WalkFront(r, code, t, 0, e);
    WalkFront(r, code, Step(r, t, 0), 0, e);
  }

  lemma TakesFront(r: Re, code: bool, t: set<nat>, p: seq<int>, n: nat)
    requires p != []
    ensures TakesFrom(r, code, t, p, 0) <==> Accept(r) in t
    ensures TakesFrom(r, code, t, p, n + 1) <==> TakesFrom(r, code, Move(r, code, t, p[0]), p[1..], n)
  {
    hide Walk, Move;
    var c, q := p[0], p[1..];
    WalkFront(r, code, t, c, []);
    assert p[..0] == [] && p + [0] == [c] + (q + [0]);
    WalkFront(r, code, t, c, q + [0]);
    if n <= |q| {
      assert p[..n + 1] == [c] + q[..n];
      WalkFront(r, code, t, c, q[..n]);
    }
  }

  /** Best is what its comment says. */
  lemma {:induction false} BestIsMost(r: Re, code: bool, t: set<nat>, p: seq<int>)
    ensures Best(r, code, t, p) >= 0 ==> TakesFrom(r, code, t, p, Best(r, code, t, p))
    ensures forall n: nat :: TakesFrom(r, code, t, p, n) ==> n <= Best(r, code, t, p)
    decreases |p|
  {
    hide TakesFrom, Move, Step;
    if p == [] {
      TakesNothing(r, code, t);
      forall n: nat | TakesFrom(r, code, t, p, n) ensures n <= Best(r, code, t, p) { TakesInside(r, code, t, p, n); }
    } else {
      var u := Move(r, code, t, p[0]);
      var m := Best(r, code, u, p[1..]);
      BestIsMost(r, code, u, p[1..]);
      TakesFront(r, code, t, p, if m >= 0 then m else 0);
      forall n: nat | TakesFrom(r, code, t, p, n) ensures n <= Best(r, code, t, p) {
        if n > 0 { TakesFront(r, code, t, p, n - 1); }
      }
    }
  }

  lemma TakesInside(r: Re, code: bool, t: set<nat>, p: seq<int>, n: nat)
    requires TakesFrom(r, code, t, p, n)
    ensures n <= |p|
  {
  }

  // -------------------------------------------------------------- hits and matches

  lemma HitsTakes(r: Re, p: seq<int>, i: nat, n: nat)
    requires i <= |p|
    ensures Hits(r, Ended0(p), i, n) <==> TakesFrom(r, true, Opening(r, i), p[i..], n)
  {
    hide Ran, Opening;
    var z := Ended0(p);
    if i + n <= |p| {
      assert z[i..i + n] == p[i..][..n];
      if i + n == |p| { assert z[i..i + n + 1] == p[i..] + [0]; }
    }
  }

  lemma MatchTakes(s: Re, p: seq<int>, i: nat, n: nat)
    requires NoFinal(s) && Text(p) && i <= |p|
    ensures var r := Renumber(s, 1); MatchAt(s, p, i, n) <==> TakesFrom(r, false, Opening(r, i), p[i..], n)
  {
    hide Run, Opening, Lang;
    var r := Renumber(s, 1);
    RenumberIsNumbered(s, 1);
    if i + n <= |p| {
      assert p[i..i + n] == p[i..][..n];
      OpeningMeaning(r, i, p[i..i + n]);
      SameWord(s, i, p[i..i + n]);
      if i + n == |p| {
        OpeningMeaning(r, i, p[i..] + [0]);
        SameWord(s, i, p[i..] + [0]);
      }
    }
  }

  /** The longest match at the start of the text, of length n or less, or -1. */
  ghost function LongestTo(s: Re, p: seq<int>, n: int): (m: int)
    requires n <= |p|
    ensures -1 <= m && (n >= -1 ==> m <= n)
    decreases n + 1
  {
    if n < 0 then -1 else if MatchAt(s, p, 0, n) then n else LongestTo(s, p, n - 1)
  }

  /** The longest match at the start of the text, or -1. */
  ghost function Longest(s: Re, p: seq<int>): int {
    LongestTo(s, p, |p|)
  }

  lemma {:induction false} LongestToIs(s: Re, p: seq<int>, n: int)
    requires n <= |p|
    ensures LongestTo(s, p, n) >= 0 ==> MatchAt(s, p, 0, LongestTo(s, p, n))
    ensures forall k: nat :: k <= n && MatchAt(s, p, 0, k) ==> k <= LongestTo(s, p, n)
    decreases n + 1
  {
    hide MatchAt;
    if n >= 0 { LongestToIs(s, p, n - 1); }
  }

  lemma LongestIsBest(s: Re, p: seq<int>)
    requires NoFinal(s) && Text(p)
    ensures var r := Renumber(s, 1); Longest(s, p) == Best(r, false, HatState(r, true), p)
  {
    hide MatchAt, TakesFrom, HatState, Best, LongestTo;
    var r := Renumber(s, 1);
    var best := Best(r, false, HatState(r, true), p);
    LongestToIs(s, p, |p|);
    BestIsMost(r, false, HatState(r, true), p);
    OpensHatted(r);
    assert p[0..] == p;
    forall n: nat ensures MatchAt(s, p, 0, n) <==> TakesFrom(r, false, HatState(r, true), p, n) { MatchTakes(s, p, 0, n); }
    if best >= 0 { assert MatchAt(s, p, 0, best); }
    var most := Longest(s, p);
    if most >= 0 { assert MatchAt(s, p, 0, most); }
  }

  lemma OpensHatted(r: Re)
    ensures Opening(r, 0) == HatState(r, true)
  {
  }

  // --------------------------------------------------------------- the condition

  function Bump(n: int): int {
    if n >= 0 then n + 1 else -1
  }

  /** A byte 2 in front of a text only makes the longest match at its start one longer. */
  ghost predicate SkipsStray(s: Re) {
    forall p :: Text(p) ==> Longest(s, [STRAY] + p) == Bump(Longest(s, p))
  }

  /** The same of a state's longest lengths. */
  ghost predicate BestSkips(r: Re) {
    forall p :: Text(p) ==> Best(r, false, HatState(r, true), [STRAY] + p) == Bump(Best(r, false, HatState(r, true), p))
  }

  lemma SkipsIff(s: Re)
    requires NoFinal(s)
    ensures SkipsStray(s) <==> BestSkips(Renumber(s, 1))
  {
    hide Longest, Best, HatState;
    var r := Renumber(s, 1);
    forall p | Text(p)
      ensures Longest(s, p) == Best(r, false, HatState(r, true), p)
      ensures Longest(s, [STRAY] + p) == Best(r, false, HatState(r, true), [STRAY] + p)
    {
      LongestIsBest(s, p);
      LongestIsBest(s, [STRAY] + p);
    }
  }

  /** The loop makes the longest length one longer. */
  lemma LoopBest(r: Re, p: seq<int>)
    requires NewHat(r)
    ensures var h := HatState(r, true); Best(r, true, h, [STRAY] + p) == Bump(Best(r, true, h, p))
  {
    hide Step, NewHat, HatState;
    var h := HatState(r, true);
    assert ([STRAY] + p)[1..] == p;
    if Accept(r) in h { AcceptingBest(r, true, h, p); }
  }

  lemma AcceptingBest(r: Re, code: bool, t: set<nat>, p: seq<int>)
    requires Accept(r) in t
    ensures Best(r, code, t, p) >= 0
  {
  }

  /** If the byte is skipped, the longest lengths are right from every state. */
  lemma {:induction false} BestRight(r: Re, t: set<nat>, p: seq<int>)
    requires Text(p) && (NewHat(r) ==> BestSkips(r))
    ensures Best(r, true, t, p) == Best(r, false, t, p)
    decreases |p|
  {
    hide Step, NewHat, HatState, Turn;
    if p != [] {
      var c, q := p[0], p[1..];
      assert p == [c] + q;
      BestRight(r, Turn(r, true, t, c), q);
      if Turn(r, true, t, c) != Step(r, t, c) {
        TurnLoops(r, t, c);
        if Accept(r) in t { AcceptingBest(r, true, t, q); }
        assert Best(r, false, t, [STRAY] + q) == Bump(Best(r, false, t, q));
      }
    }
  }

  lemma TurnLoops(r: Re, t: set<nat>, c: int)
    requires Turn(r, true, t, c) != Step(r, t, c)
    ensures NewHat(r) && c == STRAY && t == HatState(r, true) && Turn(r, true, t, c) == t
  {
  }

  // ----------------------------------------------------------------- the answers

  /** Every answer of the code is right. */
  ghost predicate AllRight(s: Re, least: nat) {
    forall p, found, patbeg: nat, patlen ::
      Text(p) && Answer(s, p, least, found, patbeg, patlen) ==> RightAnswer(s, p, least, found, patbeg, patlen)
  }

  /** Equal longest lengths make equal answers. */
  lemma AnswerRight(s: Re, p: seq<int>, least: nat, found: bool, patbeg: nat, patlen: int)
    requires NoFinal(s) && Text(p) && Answer(s, p, least, found, patbeg, patlen)
    requires var r := Renumber(s, 1);
             forall i: nat :: i <= |p| ==> Best(r, true, Opening(r, i), p[i..]) == Best(r, false, Opening(r, i), p[i..])
    ensures RightAnswer(s, p, least, found, patbeg, patlen)
  {
    hide Hits, MatchAt, Best, Opening;
    if found { AtStart(s, p, least, patbeg, patlen); }
    forall i: nat, n: nat | i < (if found then patbeg else |p| + 1) && least <= n ensures !MatchAt(s, p, i, n) {
      if i <= |p| { NoneAt(s, p, least, i, n); } else { MatchInside(s, p, i, n); }
    }
  }

  lemma MatchInside(s: Re, p: seq<int>, i: nat, n: nat)
    ensures MatchAt(s, p, i, n) ==> i <= |p|
  {
  }

  /** One start: the greatest hit is the greatest match. */
  lemma AtStart(s: Re, p: seq<int>, least: nat, i: nat, n: int)
    requires NoFinal(s) && Text(p) && least <= n
    requires var r, z := Renumber(s, 1), Ended0(p);
             Hits(r, z, i, n) && forall k :: least <= k && Hits(r, z, i, k) ==> k <= n
    requires i <= |p| ==> var r := Renumber(s, 1); Best(r, true, Opening(r, i), p[i..]) == Best(r, false, Opening(r, i), p[i..])
    ensures i <= |p| && MatchAt(s, p, i, n) && forall k: nat :: MatchAt(s, p, i, k) ==> k <= n
  {
    var r := Renumber(s, 1);
    assert i <= |p|;
    hide MatchAt, Best, Opening, TakesFrom, Hits;
    var best := Best(r, true, Opening(r, i), p[i..]);
    BestIsMost(r, true, Opening(r, i), p[i..]);
    BestIsMost(r, false, Opening(r, i), p[i..]);
    HitsTakes(r, p, i, n);
    HitsTakes(r, p, i, best);
    assert n == best;
    forall k: nat ensures MatchAt(s, p, i, k) <==> TakesFrom(r, false, Opening(r, i), p[i..], k) { MatchTakes(s, p, i, k); }
  }

  /** No hit, no match. */
  lemma NoneAt(s: Re, p: seq<int>, least: nat, i: nat, n: nat)
    requires NoFinal(s) && Text(p) && i <= |p| && least <= n
    requires var r, z := Renumber(s, 1), Ended0(p); forall k :: least <= k ==> !Hits(r, z, i, k)
    requires var r := Renumber(s, 1); Best(r, true, Opening(r, i), p[i..]) == Best(r, false, Opening(r, i), p[i..])
    ensures !MatchAt(s, p, i, n)
  {
    hide MatchAt, Best, Opening, TakesFrom, Hits;
    var r := Renumber(s, 1);
    var best := Best(r, true, Opening(r, i), p[i..]);
    BestIsMost(r, true, Opening(r, i), p[i..]);
    BestIsMost(r, false, Opening(r, i), p[i..]);
    if best >= 0 { HitsTakes(r, p, i, best); }
    MatchTakes(s, p, i, n);
  }

  /** There is always an answer, and at the start of the string if there is a hit there. */
  lemma {:induction false} AnswerFrom(s: Re, p: seq<int>, least: nat, i: nat) returns (found: bool, patbeg: nat, patlen: int)
    requires i <= |p| + 1
    requires forall j: nat, n: nat :: j < i && least <= n ==> !Hits(Renumber(s, 1), Ended0(p), j, n)
    ensures Answer(s, p, least, found, patbeg, patlen) && (found ==> patbeg >= i)
    ensures var r := Renumber(s, 1);
            i <= |p| && Best(r, true, Opening(r, i), p[i..]) >= least ==>
              found && patbeg == i && patlen == Best(r, true, Opening(r, i), p[i..])
    decreases |p| + 1 - i
  {
    hide Hits, Best, Opening;
    var r := Renumber(s, 1);
    found, patbeg, patlen := false, i, -1;
    if i <= |p| {
      var best := Best(r, true, Opening(r, i), p[i..]);
      HitsUpTo(r, p, i);
      if best >= least {
        found, patbeg, patlen := true, i, best;
      } else {
        found, patbeg, patlen := AnswerFrom(s, p, least, i + 1);
      }
    }
  }

  lemma HitsUpTo(r: Re, p: seq<int>, i: nat)
    requires i <= |p|
    ensures var best := Best(r, true, Opening(r, i), p[i..]);
            (best >= 0 ==> Hits(r, Ended0(p), i, best)) && forall n: nat :: Hits(r, Ended0(p), i, n) ==> n <= best
  {
    hide Hits, Best, Opening, TakesFrom;
    BestIsMost(r, true, Opening(r, i), p[i..]);
    var best := Best(r, true, Opening(r, i), p[i..]);
    if best >= 0 { HitsTakes(r, p, i, best); }
    forall n: nat | Hits(r, Ended0(p), i, n) ensures n <= best { HitsTakes(r, p, i, n); }
  }

  /** Right answers need equal longest lengths at the start of every text. */
  lemma RightNeedsBest(s: Re, least: nat, p: seq<int>)
    requires NoFinal(s) && Text(p) && least <= 1 && AllRight(s, least)
    ensures var r := Renumber(s, 1); Best(r, true, HatState(r, true), p) == Best(r, false, HatState(r, true), p)
  {
    hide Hits, Best, Opening, MatchAt, TakesFrom, HatState;
    var r := Renumber(s, 1);
    var h := HatState(r, true);
    OpensHatted(r);
    assert p[0..] == p;
    var found, patbeg, patlen := AnswerFrom(s, p, least, 0);
    var code, due := Best(r, true, h, p), Best(r, false, h, p);
    BestIsMost(r, true, h, p);
    BestIsMost(r, false, h, p);
    forall n: nat ensures MatchAt(s, p, 0, n) <==> TakesFrom(r, false, h, p, n) { MatchTakes(s, p, 0, n); }
    NothingSame(r, h, p);
    if code >= least {
      assert MatchAt(s, p, 0, code);
      assert MatchAt(s, p, 0, due);
    } else {
      if due >= least { HitsUpTo(r, p, 0); }
    }
  }

  /** The empty match does not depend on the entry. */
  lemma NothingSame(r: Re, t: set<nat>, p: seq<int>)
    ensures TakesFrom(r, true, t, p, 0) <==> TakesFrom(r, false, t, p, 0)
  {
    hide TakesFrom, Step;
    if p == [] {
      TakesNothing(r, true, t);
      TakesNothing(r, false, t);
    } else {
      TakesFront(r, true, t, p, 0);
      TakesFront(r, false, t, p, 0);
    }
  }

  /** pmatch (least 0) and nematch (least 1) are right on every text if and only if the hat makes no state of its own
      or a byte 2 in front of a text only makes the longest match at its start one longer. */
  lemma AnchoredRightIff(s: Re, least: nat)
    requires NoFinal(s) && least <= 1
    ensures AllRight(s, least) <==> (NewHat(Renumber(s, 1)) ==> SkipsStray(s))
  {
    hide Answer, RightAnswer, SkipsStray, NewHat, Best, HatState, Opening;
    var r := Renumber(s, 1);
    SkipsIff(s);
    if NewHat(r) ==> SkipsStray(s) {
      forall p, found, patbeg: nat, patlen | Text(p) && Answer(s, p, least, found, patbeg, patlen)
        ensures RightAnswer(s, p, least, found, patbeg, patlen)
      {
        forall i: nat | i <= |p| ensures Best(r, true, Opening(r, i), p[i..]) == Best(r, false, Opening(r, i), p[i..]) {
          BestRight(r, Opening(r, i), p[i..]);
        }
        AnswerRight(s, p, least, found, patbeg, patlen);
      }
    }
    if AllRight(s, least) && NewHat(r) {
      forall p | Text(p) ensures Best(r, false, HatState(r, true), [STRAY] + p) == Bump(Best(r, false, HatState(r, true), p)) {
        RightNeedsBest(s, least, p);
        RightNeedsBest(s, least, [STRAY] + p);
        LoopBest(r, p);
      }
    }
  }

  // ---------------------------------------------------------------- an example

  /** The expression ^, any number of bytes 2, a: the hat makes a state of its own and all answers are right. */
  function HatTwosA(): Re {
    Cat(Leaf(Char(HAT), 0), Cat(Star(Leaf(Char(STRAY), 0)), Leaf(Char('a' as int), 0)))
  }

  predicate Only(y: seq<int>, c: int) {
    forall i :: 0 <= i < |y| ==> y[i] == c
  }

  lemma {:induction false} TwosWords(c: int, y: seq<int>)
    requires c != END
    ensures Lang(Star(Leaf(Char(c), 0)), y) <==> Only(y, c)
    decreases |y|
  {
    var leaf := Leaf(Char(c), 0);
    if y != [] {
      TwosWords(c, y[1..]);
      assert y == [y[0]] + y[1..];
      if Lang(Star(leaf), y) {
        var j := StarElim(leaf, y);
        assert y[..j] == [y[0]] && y[j..] == y[1..];
      }
      if Only(y, c) {
        assert y[..1] == [y[0]];
        LoopIntro(leaf, y, 1);
      }
    }
  }

  /** Bytes 2, then a. */
  predicate TwosA(y: seq<int>) {
    y != [] && y[|y| - 1] == 'a' as int && Only(y[..|y| - 1], STRAY)
  }

  lemma TwosAWords(y: seq<int>)
    ensures Lang(Cat(Star(Leaf(Char(STRAY), 0)), Leaf(Char('a' as int), 0)), y) <==> TwosA(y)
  {
    var star, a := Star(Leaf(Char(STRAY), 0)), Leaf(Char('a' as int), 0);
    if Lang(Cat(star, a), y) {
      var k := CatElim(star, a, y);
      TwosWords(STRAY, y[..k]);
      assert y[k..] == ['a' as int] && k == |y| - 1;
    }
    if TwosA(y) {
      var k := |y| - 1;
      TwosWords(STRAY, y[..k]);
      assert y[k..] == ['a' as int];
      CatIntro(star, a, y, k);
    }
  }

  lemma HatTwosAWords(y: seq<int>)
    ensures Lang(HatTwosA(), y) <==> y != [] && y[0] == HAT && TwosA(y[1..])
  {
    var hat, rest := Leaf(Char(HAT), 0), Cat(Star(Leaf(Char(STRAY), 0)), Leaf(Char('a' as int), 0));
    hide TwosA;
    if Lang(HatTwosA(), y) {
      var k := CatElim(hat, rest, y);
      TwosAWords(y[k..]);
      assert k == 1 && y[..1][0] == y[0];
    }
    if y != [] && y[0] == HAT && TwosA(y[1..]) {
      TwosAWords(y[1..]);
      assert y[..1] == [HAT];
      CatIntro(hat, rest, y, 1);
    }
  }

  /** A word that needs the hat in front means that the hat leads somewhere new. */
  lemma NewHatByWord(r: Re, w: seq<int>)
    requires Parsed(r) && NoEnd(w) && Lang(r, [HAT] + w) && !Lang(r, w)
    ensures NewHat(r)
  {
    hide Lang, Start, Hatted, In;
    AnchoredHatted(r, w + [END]);
    AnchoredStart(r, w + [END]);
    assert ([HAT] + (w + [END]))[..|w| + 1] == [HAT] + w && (w + [END])[..|w|] == w;
  }

  lemma HatTwosAMatches(p: seq<int>, n: nat)
    requires Text(p)
    ensures MatchAt(HatTwosA(), p, 0, n) <==> n <= |p| && TwosA(p[..n])
  {
    hide Lang;
    if n <= |p| {
      var w, v := p[0..n], p[0..] + [0];
      assert w == p[..n] && p[0..] == p;
      HatTwosAWords(w);
      HatTwosAWords(v);
      HatTwosAWords([HAT] + w);
      HatTwosAWords([HAT] + v);
      assert ([HAT] + w)[1..] == w && ([HAT] + v)[1..] == v;
      assert v[|v| - 1] == 0;
      assert w != [] ==> w[0] == p[0];
      assert p != [] ==> v[0] == p[0];
    }
  }

  /** One byte 2 more in front. */
  lemma TwosALonger(p: seq<int>, n: nat)
    requires n <= |p| + 1
    ensures TwosA(([STRAY] + p)[..n]) <==> n > 0 && TwosA(p[..n - 1])
  {
    var q := [STRAY] + p;
    if n > 0 {
      var w := p[..n - 1];
      assert q[..n] == [STRAY] + w;
      assert ([STRAY] + w)[..n - 1] == if w == [] then [] else [STRAY] + w[..|w| - 1];
      if w != [] {
        assert ([STRAY] + w)[n - 1] == w[|w| - 1];
        assert forall i :: 0 <= i < |w| - 1 ==> ([STRAY] + w[..|w| - 1])[i + 1] == w[i];
      }
    }
  }

  lemma SkippingExample()
    ensures NoFinal(HatTwosA()) && NewHat(Renumber(HatTwosA(), 1)) && SkipsStray(HatTwosA())
  {
    var s := HatTwosA();
    RenumberIsNumbered(s, 1);
    var w := ['a' as int];
    HatTwosAWords([HAT] + w);
    HatTwosAWords(w);
    RenumberKeeps(s, 1, [HAT] + w);
    RenumberKeeps(s, 1, w);
    assert ([HAT] + w)[1..] == w;
    NewHatByWord(Renumber(s, 1), w);
    forall p | Text(p) ensures Longest(s, [STRAY] + p) == Bump(Longest(s, p)) { ExampleSkips(p); }
  }

  lemma ExampleSkips(p: seq<int>)
    requires Text(p)
    ensures Longest(HatTwosA(), [STRAY] + p) == Bump(Longest(HatTwosA(), p))
  {
    hide MatchAt, TwosA, LongestTo;
    var s, q := HatTwosA(), [STRAY] + p;
    LongestToIs(s, p, |p|);
    LongestToIs(s, q, |q|);
    var m, k := Longest(s, p), Longest(s, q);
    if m >= 0 {
      HatTwosAMatches(p, m);
      HatTwosAMatches(q, m + 1);
      TwosALonger(p, m + 1);
    }
    if k >= 0 {
      HatTwosAMatches(q, k);
      TwosALonger(p, k);
      HatTwosAMatches(p, k - 1);
    }
  }
}
