/** When the entry that makeinit leaves for byte 2 makes the matchers err, and a case where it does. */
module ReStray {
  import opened ReTree
  import opened ReSets
  import opened ReHat
  import opened ReAutomaton
  import opened ReMatch

  // -------------------------------------------------------------- text by text

  /** The right answer of match. */
  ghost predicate Found(s: Re, p: seq<int>) {
    exists k :: 0 <= k <= |p| + 1 && SomewhereIn(s, [HAT] + Ended0(p)[..k])
  }

  /** What the code finds in w from state t, and what the steps alone would find. */
  ghost predicate Seen(r: Re, t: set<nat>, w: seq<int>) {
    exists k :: 0 <= k <= |w| && Accept(r) in Ran(r, false, t, w[..k])
  }

  ghost predicate Due(r: Re, t: set<nat>, w: seq<int>) {
    exists k :: 0 <= k <= |w| && Accept(r) in Run(r, t, w[..k])
  }

  lemma {:induction false} RanFront(r: Re, anchored: bool, t: set<nat>, c: int, w: seq<int>)
    ensures Ran(r, anchored, t, [c] + w) == Ran(r, anchored, Turn(r, anchored, t, c), w)
    decreases |w|
  {
    hide Turn;
    var x := [c] + w;
    if w == [] {
      assert x[..0] == [] && x == [c];
    } else {
      assert x[..|x| - 1] == [c] + w[..|w| - 1];
      RanFront(r, anchored, t, c, w[..|w| - 1]);
    }
  }

  lemma {:induction false} RunFront(r: Re, t: set<nat>, c: int, w: seq<int>)
    ensures Run(r, t, [c] + w) == Run(r, Step(r, t, c), w)
    decreases |w|
  {
    hide Step;
    var x := [c] + w;
    if w == [] {
      assert x[..0] == [] && x == [c];
    } else {
      assert x[..|x| - 1] == [c] + w[..|w| - 1];
      RunFront(r, t, c, w[..|w| - 1]);
    }
  }

  lemma SeenFront(r: Re, t: set<nat>, c: int, w: seq<int>)
    ensures Seen(r, t, [c] + w) <==> Accept(r) in t || Seen(r, Turn(r, false, t, c), w)
  {
    hide Ran, Turn;
    var x := [c] + w;
    RanNone(r, false, t, x);
    forall k | 0 <= k <= |w| ensures Ran(r, false, t, x[..k + 1]) == Ran(r, false, Turn(r, false, t, c), w[..k]) {
      assert x[..k + 1] == [c] + w[..k];
      RanFront(r, false, t, c, w[..k]);
    }
    if Accept(r) in t { assert Accept(r) in Ran(r, false, t, x[..0]); }
    if Seen(r, Turn(r, false, t, c), w) {
      var k :| 0 <= k <= |w| && Accept(r) in Ran(r, false, Turn(r, false, t, c), w[..k]);
      assert Accept(r) in Ran(r, false, t, x[..k + 1]);
    }
    if Seen(r, t, x) {
      var k :| 0 <= k <= |x| && Accept(r) in Ran(r, false, t, x[..k]);
      if k > 0 { assert Accept(r) in Ran(r, false, Turn(r, false, t, c), w[..k - 1]); }
    }
  }

  lemma DueFront(r: Re, t: set<nat>, c: int, w: seq<int>)
    ensures Due(r, t, [c] + w) <==> Accept(r) in t || Due(r, Step(r, t, c), w)
  {
    hide Run, Step;
    var x := [c] + w;
    RunNone(r, t, x);
    forall k | 0 <= k <= |w| ensures Run(r, t, x[..k + 1]) == Run(r, Step(r, t, c), w[..k]) {
      assert x[..k + 1] == [c] + w[..k];
      RunFront(r, t, c, w[..k]);
    }
    if Accept(r) in t { assert Accept(r) in Run(r, t, x[..0]); }
    if Due(r, Step(r, t, c), w) {
      var k :| 0 <= k <= |w| && Accept(r) in Run(r, Step(r, t, c), w[..k]);
      assert Accept(r) in Run(r, t, x[..k + 1]);
    }
    if Due(r, t, x) {
      var k :| 0 <= k <= |x| && Accept(r) in Run(r, t, x[..k]);
      if k > 0 { assert Accept(r) in Run(r, Step(r, t, c), w[..k - 1]); }
    }
  }

  lemma RunNone(r: Re, t: set<nat>, z: seq<int>)
    ensures Run(r, t, z[..0]) == t
  {
  }

  lemma AcceptingIsDue(r: Re, t: set<nat>, w: seq<int>)
    requires Accept(r) in t
    ensures Due(r, t, w) && Seen(r, t, w)
  {
    hide Run, Ran;
    RunNone(r, t, w);
    RanNone(r, false, t, w);
    assert Accept(r) in Run(r, t, w[..0]) && Accept(r) in Ran(r, false, t, w[..0]);
  }

  lemma DueEnd(r: Re, t: set<nat>)
    ensures Due(r, t, []) <==> Accept(r) in t
    ensures Seen(r, t, []) <==> Accept(r) in t
  {
    var e: seq<int> := [];
    assert e[..0] == [];
  }

  /** A byte 2 in front of a text never decides what the hat state is due to find. */
  ghost predicate NeverDecides(r: Re) {
    forall p :: Text(p) ==> (Due(r, Hatted(r), Ended0(p)) <==> Due(r, Hatted(r), [STRAY] + Ended0(p)))
  }

  lemma {:induction false} SeenIsDue(r: Re, t: set<nat>, p: seq<int>)
    requires Text(p) && NeverDecides(r)
    ensures Seen(r, t, Ended0(p)) <==> Due(r, t, Ended0(p))
    decreases |p|
  {
    hide Step, Run, Ran, Seen, Due, Hatted, NewHat;
    var z := Ended0(p);
    var c, w := z[0], z[1..];
    assert z == [c] + w;
    SeenFront(r, t, c, w);
    DueFront(r, t, c, w);
    if p == [] {
      assert w == [];
      DueEnd(r, Step(r, t, 0));
    } else {
      assert w == Ended0(p[1..]);
      SeenIsDue(r, Turn(r, false, t, c), p[1..]);
      if Turn(r, false, t, c) != Step(r, t, c) && Accept(r) in t { AcceptingIsDue(r, t, w); }
    }
  }

  lemma DueIsFound(s: Re, p: seq<int>)
    requires NoFinal(s) && Text(p)
    ensures var r := Renumber(s, 1); Due(r, Hatted(r), Ended0(p)) <==> Found(s, p)
    ensures var r := Renumber(s, 1); Seen(r, Hatted(r), Ended0(p)) <==> SeenBy(r, Ended0(p), |p| + 1)
  {
    hide Run, Ran, Hatted, SomewhereIn;
    var r, z := Renumber(s, 1), Ended0(p);
    RenumberIsNumbered(s, 1);
    forall k | 0 <= k <= |p| + 1 ensures Accept(r) in Run(r, Hatted(r), z[..k]) <==> SomewhereIn(s, [HAT] + z[..k]) {
      MatchMeaning(r, z[..k]);
      SameSomewhere(s, [HAT] + z[..k]);
    }
  }

  lemma TextFacts(s: Re, p: seq<int>)
    requires NoFinal(s) && Text(p) && NewHat(Renumber(s, 1))
    ensures var r := Renumber(s, 1);
            (Due(r, Hatted(r), Ended0(p)) <==> Found(s, p)) && (Seen(r, Hatted(r), Ended0(p)) <==> SeenBy(r, Ended0(p), |p| + 1))
    ensures var r, q := Renumber(s, 1), [STRAY] + p;
            Text(q) && Ended0(q) == [STRAY] + Ended0(p) && (Due(r, Hatted(r), Ended0(q)) <==> Found(s, q))
            && (SeenBy(r, Ended0(q), |q| + 1) <==> SeenBy(r, Ended0(p), |p| + 1))
  {
    hide Run, Ran, Hatted, Seen, Due, Found, SeenBy, Step, NewHat;
    DueIsFound(s, p);
    DueIsFound(s, [STRAY] + p);
    assert Ended0([STRAY] + p) == [STRAY] + Ended0(p);
    Swallowed(Renumber(s, 1), Ended0(p));
  }

  /** A byte 2 in front of a text never decides whether there is a match. */
  ghost predicate NeverCounts(s: Re) {
    forall p :: Text(p) ==> (Found(s, p) <==> Found(s, [STRAY] + p))
  }

  /** What match answers is right. */
  ghost predicate MatchRight(s: Re, p: seq<int>) {
    SeenBy(Renumber(s, 1), Ended0(p), |p| + 1) <==> Found(s, p)
  }

  lemma SureFound(s: Re, p: seq<int>)
    requires NoFinal(s) && Text(p) && Sure(s, false, p)
    ensures MatchRight(s, p)
  {
    hide SomewhereIn, Run, Ran, Hatted, Sure;
    var r := Renumber(s, 1);
    forall k | 0 <= k <= |p| + 1
      ensures Accept(r) in Ran(r, false, Hatted(r), Ended0(p)[..k]) <==> SomewhereIn(s, [HAT] + Ended0(p)[..k])
    {
      SureSomewhere(s, p, k);
    }
  }

  /** match is right on every text if and only if the hat makes no state of its own or a byte 2 in front never
      decides whether there is a match. */
  lemma MatchRightIff(s: Re)
    requires NoFinal(s)
    ensures (forall p :: Text(p) ==> MatchRight(s, p)) <==> (NewHat(Renumber(s, 1)) ==> NeverCounts(s))
  {
    hide MatchRight, NewHat, NeverCounts, Text;
    if NewHat(Renumber(s, 1)) {
      NewHatRightIff(s);
    } else {
      forall p | Text(p) ensures MatchRight(s, p) { NoHatFound(s, p); }
    }
  }

  lemma NoHatFound(s: Re, p: seq<int>)
    requires NoFinal(s) && Text(p) && !NewHat(Renumber(s, 1))
    ensures MatchRight(s, p)
  {
    hide MatchRight, NewHat;
    SureFound(s, p);
  }

  lemma CountsFound(s: Re, p: seq<int>)
    requires NoFinal(s) && Text(p) && NeverCounts(s)
    ensures MatchRight(s, p)
  {
    hide MatchRight, NewHat, NeverCounts;
    MatchRightIff(s);
  }

  lemma NewHatRightIff(s: Re)
    requires NoFinal(s) && NewHat(Renumber(s, 1))
    ensures (forall p :: Text(p) ==> MatchRight(s, p)) <==> NeverCounts(s)
  {
    hide Run, Ran, Hatted, Seen, Due, Found, SeenBy, Step, NewHat, Text;
    var r := Renumber(s, 1);
    if NeverCounts(s) {
      forall p | Text(p) ensures Due(r, Hatted(r), Ended0(p)) <==> Due(r, Hatted(r), [STRAY] + Ended0(p)) { TextFacts(s, p); }
      forall p | Text(p) ensures MatchRight(s, p) {
        TextFacts(s, p);
        SeenIsDue(r, Hatted(r), p);
      }
    }
    if forall p :: Text(p) ==> MatchRight(s, p) {
      forall p | Text(p) ensures Found(s, p) <==> Found(s, [STRAY] + p) {
        TextFacts(s, p);
        assert MatchRight(s, p) && MatchRight(s, [STRAY] + p);
      }
    }
  }

  /** The loop swallows the byte. */
  lemma Swallowed(r: Re, w: seq<int>)
    requires NewHat(r)
    ensures Seen(r, Hatted(r), [STRAY] + w) <==> Seen(r, Hatted(r), w)
  {
    hide Seen, Due, Hatted, Ran, Run, Step;
    SeenFront(r, Hatted(r), STRAY, w);
    if Accept(r) in Hatted(r) { AcceptingIsDue(r, Hatted(r), w); }
  }

  // ---------------------------------------------------------------- an example

  /** The expression ^a. */
  function HatA(): Re {
    Cat(Leaf(Char(HAT), 0), Leaf(Char('a' as int), 0))
  }

  /** The text of byte 2 and a. */
  const TEXT: seq<int> := [STRAY, 'a' as int]

  function HatA1(): Re {
    Cat(Leaf(Char(HAT), 1), Leaf(Char('a' as int), 2))
  }

  lemma HatAParsed()
    ensures Renumber(HatA(), 1) == HatA1() && NoFinal(HatA()) && Parsed(HatA1()) && Accept(HatA1()) == 3
  {
    RenumberIsNumbered(HatA(), 1);
    assert Leaves(Leaf(Char(HAT), 0)) == 1;
  }

  /** Its leaves, and what follows them. */
  lemma HatALeaves()
    ensures var r := HatA1();
            SymAt(r, 0) == All && SymAt(r, 1) == Char(HAT) && SymAt(r, 2) == Char('a' as int)
            && FollowAt(r, 0) == {0, 1} && FollowAt(r, 1) == {2} && FollowAt(r, 2) == {3}
  {
    HatAFirst();
    HatASecond();
    HatAThird();
  }

  lemma HatAFirst()
    ensures SymAt(HatA1(), 0) == All && FollowAt(HatA1(), 0) == {0, 1}
  {
    hide Plug, Follow;
    HatAParsed();
    StartIsFirst(HatA1());
    Shape(HatA1());
    assert First(Leaf(Char(HAT), 1)) == {1};
  }

  lemma HatASecond()
    ensures SymAt(HatA1(), 1) == Char(HAT) && FollowAt(HatA1(), 1) == {2}
  {
    var r, x, y := HatA1(), Leaf(Char(HAT), 1), Leaf(Char('a' as int), 2);
    HatAParsed();
    AroundShape(r);
    assert Leaves(x) == 1 && Leaves(y) == 1;
    AtRoot(r, Around(r), 1, 1);
    assert At(r, Around(r), 1, 1) == Place(x, CatLeft(y, Around(r)));
    assert First(y) == {2};
  }

  lemma HatAThird()
    ensures SymAt(HatA1(), 2) == Char('a' as int) && FollowAt(HatA1(), 2) == {3}
  {
    var r, x, y := HatA1(), Leaf(Char(HAT), 1), Leaf(Char('a' as int), 2);
    HatAParsed();
    AroundShape(r);
    RFollow(r);
    assert Leaves(x) == 1 && Leaves(y) == 1;
    AtRoot(r, Around(r), 1, 2);
    assert At(r, Around(r), 1, 2) == Place(y, CatRight(x, Around(r)));
  }

  /** After the whole expression comes FINAL. */
  lemma RFollow(r: Re)
    requires Parsed(r)
    ensures Follow(r, Around(r)) == {Accept(r)}
  {
    var last := Leaf(Final, Accept(r));
    var star := Star(Leaf(All, 0));
    assert Follow(r, Around(r)) == Follow(Cat(star, r), CatLeft(last, Top));
    assert First(last) == {Accept(r)};
  }

  lemma HatASteps()
    ensures var r := HatA1();
            Start(r) == {0, 1} && Hatted(r) == {0, 1, 2} && Accept(r) in Step(r, {0, 1, 2}, 'a' as int)
            && Accept(r) in Step(r, {1, 2}, 'a' as int) && NewHat(r)
  {
    var r := HatA1();
    hide SymAt, FollowAt;
    HatAParsed();
    HatALeaves();
  }

  /** Only the hat and a make up a word of ^a. */
  lemma HatAWords(y: seq<int>)
    ensures Lang(HatA(), y) ==> y == [HAT, 'a' as int]
  {
    if Lang(HatA(), y) {
      var k := CatElim(Leaf(Char(HAT), 0), Leaf(Char('a' as int), 0), y);
      assert y == y[..k] + y[k..];
    }
  }

  /** On byte 2 and a, both matchers see a match that is none: pmatch one of length 2 at the start. */
  lemma StrayExample()
    ensures var r, z := Renumber(HatA(), 1), Ended0(TEXT);
            Text(TEXT) && SeenBy(r, z, |TEXT| + 1) && Hits(r, z, 0, 2)
    ensures !Found(HatA(), TEXT) && forall i: nat, n: nat :: !MatchAt(HatA(), TEXT, i, n)
  {
    hide Lang, Step;
    var r, z := HatA1(), Ended0(TEXT);
    HatAParsed();
    HatASteps();
    assert z[..2] == z[0..0 + 2] == [STRAY] + ['a' as int];
    ExampleRan(false);
    ExampleRan(true);
    assert Accept(r) in Ran(r, false, Hatted(r), z[..2]);
    assert Reaches(r, z, 0, 2);
    NotFound();
    forall i: nat, n: nat ensures !MatchAt(HatA(), TEXT, i, n) { NotMatched(i, n); }
  }

  lemma ExampleRan(anchored: bool)
    ensures Accept(HatA1()) in Ran(HatA1(), anchored, HatState(HatA1(), anchored), [STRAY] + ['a' as int])
  {
    hide Step;
    var r, h := HatA1(), HatState(HatA1(), anchored);
    HatASteps();
    LoopSkips(r, anchored, ['a' as int]);
    assert ['a' as int][..0] == [];
    assert Ran(r, anchored, h, ['a' as int]) == Step(r, h, 'a' as int);
    assert h == if anchored then {1, 2} else {0, 1, 2};
  }

  lemma TailIs(x: seq<int>, j: nat, a: int, b: int)
    requires j <= |x|
    ensures x[j..] == [a, b] ==> |x| == j + 2 && x[j] == a && x[j + 1] == b
  {
    if x[j..] == [a, b] { assert x[j..][0] == x[j] && x[j..][1] == x[j + 1]; }
  }

  lemma NotFound()
    ensures !Found(HatA(), TEXT)
  {
    hide Lang;
    forall k | 0 <= k <= 3 ensures !SomewhereIn(HatA(), [HAT] + Ended0(TEXT)[..k]) {
      var x := [HAT] + Ended0(TEXT)[..k];
      forall j | 0 <= j <= |x| ensures !Lang(HatA(), x[j..]) {
        HatAWords(x[j..]);
        TailIs(x, j, HAT, 'a' as int);
      }
    }
  }

  lemma NotMatched(i: nat, n: nat)
    ensures !MatchAt(HatA(), TEXT, i, n)
  {
    hide Lang;
    if i + n <= 2 {
      NoWord(i, TEXT[i..i + n]);
      NoWord(i, TEXT[i..] + [0]);
    }
  }

  lemma NoWord(i: nat, w: seq<int>)
    requires w == [] || w[0] == STRAY || (i > 0 && w[0] != HAT)
    ensures !WordAt(HatA(), i, w)
  {
    hide Lang;
    HatAWords(w);
    HatAWords([HAT] + w);
    if w != [] { assert ([HAT] + w)[1] == w[0]; }
  }
}
