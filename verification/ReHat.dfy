/** The transition that makeinit stores for the letter HAT. The table has NCHARS columns and HAT is NCHARS + 2, so
    the entry for HAT in row 2 is the entry for byte 2 in row 3. If the hat made a new state, that is state 3, and it
    keeps a loop on byte 2. Here is what the automaton then computes, and when that makes no difference. */
module ReHat {
  import opened ReTree
  import opened ReSets

  /** The byte whose column HAT falls into, one row on. */
  const STRAY: int := HAT - NCHARS

  /** The hat leads to a state of its own. */
  predicate NewHat(r: Re) {
    Hatted(r) != Start(r)
  }

  /** The state a match at the start of the string begins in. */
  function HatState(r: Re, anchored: bool): set<nat> {
    if anchored then Hatted(r) - {0} else Hatted(r)
  }

  /** The transition that is made: the step, but for the loop. */
  function Turn(r: Re, anchored: bool, s: set<nat>, c: int): set<nat> {
    if NewHat(r) && c == STRAY && s == HatState(r, anchored) then s else Step(r, s, c)
  }

  function Ran(r: Re, anchored: bool, s: set<nat>, w: seq<int>): set<nat>
    decreases |w|
  {
    if w == [] then s else Turn(r, anchored, Ran(r, anchored, s, w[..|w| - 1]), w[|w| - 1])
  }

  /** The loop is what the step would be, or there is none. */
  predicate Harmless(r: Re, anchored: bool) {
    NewHat(r) ==> Step(r, HatState(r, anchored), STRAY) == HatState(r, anchored)
  }

  // ------------------------------------------------------------ when it is right

  /** With a harmless loop, or without the byte, every state is the right one. */
  lemma {:induction false} RanIsRun(r: Re, anchored: bool, s: set<nat>, w: seq<int>)
    requires Harmless(r, anchored) || STRAY !in w
    ensures Ran(r, anchored, s, w) == Run(r, s, w)
    decreases |w|
  {
    hide Step, HatState, NewHat;
    if w != [] {
      assert w == w[..|w| - 1] + [w[|w| - 1]];
      RanIsRun(r, anchored, s, w[..|w| - 1]);
      TurnIsStep(r, anchored, Run(r, s, w[..|w| - 1]), w[|w| - 1]);
    }
  }

  lemma TurnIsStep(r: Re, anchored: bool, s: set<nat>, c: int)
    requires Harmless(r, anchored) || c != STRAY
    ensures Turn(r, anchored, s, c) == Step(r, s, c)
  {
  }

  /** From the hat state, all texts lead to the right states if and only if the loop is harmless. */
  lemma RightStatesIff(r: Re, anchored: bool)
    ensures (forall w :: Ran(r, anchored, HatState(r, anchored), w) == Run(r, HatState(r, anchored), w)) <==> Harmless(r, anchored)
  {
    hide Step, Start;
    var h := HatState(r, anchored);
    if Harmless(r, anchored) {
      forall w ensures Ran(r, anchored, h, w) == Run(r, h, w) { RanIsRun(r, anchored, h, w); }
    } else {
      var w := [STRAY];
      assert w[..0] == [];
      assert Ran(r, anchored, h, w) == h && Run(r, h, w) == Step(r, h, STRAY);
    }
  }

  /** What a C string holds: its characters, and the NUL only at the end. */
  predicate InText(w: seq<int>) {
    forall i :: 0 <= i < |w| ==> 0 <= w[i] < 256 && (w[i] == 0 ==> i == |w| - 1)
  }

  /** The byte at the front means nothing to what may follow the hat state. */
  ghost predicate Indifferent(r: Re, h: set<nat>) {
    forall w :: InText(w) ==> (In(r, h, w + [END]) <==> In(r, h, [STRAY] + (w + [END])))
  }

  /** Every word a text can hold is judged by its place in the language. */
  ghost predicate Judges(r: Re, anchored: bool, s: set<nat>) {
    forall w :: InText(w) ==> (Accept(r) in Ran(r, anchored, s, w) <==> In(r, s, w + [END]))
  }

  lemma {:induction false} RanPositions(r: Re, anchored: bool, s: set<nat>, w: seq<int>)
    requires Parsed(r) && Positions(r, s)
    ensures Positions(r, Ran(r, anchored, s, w))
    decreases |w|
  {
    hide Step, Parsed, NewHat, HatState;
    if w != [] {
      RanPositions(r, anchored, s, w[..|w| - 1]);
      StepPositions(r, Ran(r, anchored, s, w[..|w| - 1]), w[|w| - 1]);
    }
  }

  /** If the byte means nothing, the words that lead on to the end are the right ones in every state. */
  lemma {:induction false} RanMeaning(r: Re, anchored: bool, s: set<nat>, w: seq<int>, u: seq<int>)
    requires Parsed(r) && Positions(r, s) && InText(w + u) && (NewHat(r) ==> Indifferent(r, HatState(r, anchored)))
    ensures In(r, Ran(r, anchored, s, w), u + [END]) <==> In(r, s, w + (u + [END]))
    decreases |w|
  {
    hide Step, Parsed, NewHat, HatState, In, Positions;
    if w == [] {
      assert w + (u + [END]) == u + [END];
    } else {
      var init, c := w[..|w| - 1], w[|w| - 1];
      var before := Ran(r, anchored, s, init);
      assert ([c] + u) + [END] == [c] + (u + [END]) && init + ([c] + (u + [END])) == w + (u + [END]);
      assert init + ([c] + u) == w + u && (w + u)[|init|] == c;
      RanMeaning(r, anchored, s, init, [c] + u);
      RanPositions(r, anchored, s, init);
      if NewHat(r) && c == STRAY && before == HatState(r, anchored) {
        assert InText(u) by { Later(w, u); }
      } else {
        StepMeaning(r, before, c, u + [END]);
      }
    }
  }

  lemma Later(w: seq<int>, u: seq<int>)
    requires InText(w + u)
    ensures InText(u)
  {
    forall i | 0 <= i < |u| ensures 0 <= u[i] < 256 && (u[i] == 0 ==> i == |u| - 1) {
      assert (w + u)[|w| + i] == u[i];
    }
  }

  /** A hat state of its own judges every word of a text rightly if and only if the byte at the front means nothing. */
  lemma RightAnswersIff(r: Re, anchored: bool)
    requires Parsed(r) && NewHat(r) && Positions(r, HatState(r, anchored))
    ensures Judges(r, anchored, HatState(r, anchored)) <==> Indifferent(r, HatState(r, anchored))
  {
    hide Step, Parsed, In, Positions, NewHat, HatState, Ran;
    var h := HatState(r, anchored);
    if Indifferent(r, h) {
      forall w | InText(w) ensures Accept(r) in Ran(r, anchored, h, w) <==> In(r, h, w + [END]) {
        JudgedRight(r, anchored, h, w);
      }
    }
    if Judges(r, anchored, h) {
      forall w | InText(w) ensures In(r, h, w + [END]) <==> In(r, h, [STRAY] + (w + [END])) {
        LoopSkips(r, anchored, w);
        assert [STRAY] + (w + [END]) == ([STRAY] + w) + [END];
        assert InText([STRAY] + w);
      }
    }
  }

  /** So does every other state, if the hat state does. */
  lemma JudgedRight(r: Re, anchored: bool, s: set<nat>, w: seq<int>)
    requires Parsed(r) && Positions(r, s) && InText(w) && (NewHat(r) ==> Indifferent(r, HatState(r, anchored)))
    ensures Accept(r) in Ran(r, anchored, s, w) <==> In(r, s, w + [END])
  {
    hide Step, Parsed, In, NewHat, HatState, Ran, Indifferent;
    RanPositions(r, anchored, s, w);
    FinalMeaning(r, Ran(r, anchored, s, w));
    assert w + [] == w && [] + [END] == [END];
    RanMeaning(r, anchored, s, w, []);
  }

  /** The loop swallows the byte. */
  lemma {:induction false} LoopSkips(r: Re, anchored: bool, w: seq<int>)
    requires NewHat(r)
    ensures Ran(r, anchored, HatState(r, anchored), [STRAY] + w) == Ran(r, anchored, HatState(r, anchored), w)
    decreases |w|
  {
    hide Step, NewHat, HatState;
    var x := [STRAY] + w;
    if w == [] {
      assert x[..0] == [] && x == [STRAY];
    } else {
      assert x[..|x| - 1] == [STRAY] + w[..|w| - 1];
      LoopSkips(r, anchored, w[..|w| - 1]);
    }
  }

  // ----------------------------------------------------- expressions without a hat

  /** No leaf takes the hat. */
  predicate HatFree(v: Re) {
    match v
    case Leaf(sym, _) => !Takes(sym, HAT)
    case Star(r) => HatFree(r)
    case Plus(r) => HatFree(r)
    case Quest(r) => HatFree(r)
    case Cat(l, r) => HatFree(l) && HatFree(r)
    case Or(l, r) => HatFree(l) && HatFree(r)
  }

  lemma {:induction false} HatFreeLeaf(v: Re, ctx: Ctx, b: nat, p: nat)
    requires HatFree(v)
    ensures !Takes(At(v, ctx, b, p).leaf.sym, HAT)
  {
    match v
    case Leaf(_, _) =>
    case Star(r) => HatFreeLeaf(r, InStar(ctx), b, p);
    case Plus(r) => HatFreeLeaf(r, InPlus(ctx), b, p);
    case Quest(r) => HatFreeLeaf(r, InQuest(ctx), b, p);
    case Cat(l, r) =>
      HatFreeLeaf(l, CatLeft(r, ctx), b, p);
      HatFreeLeaf(r, CatRight(l, ctx), b + Leaves(l), p);
    case Or(l, r) =>
      HatFreeLeaf(l, OrLeft(r, ctx), b, p);
      HatFreeLeaf(r, OrRight(l, ctx), b + Leaves(l), p);
  }

  lemma NoHatAt(r: Re, p: nat)
    requires Parsed(r) && HatFree(r) && p in Start(r) - {0}
    ensures !Takes(SymAt(r, p), HAT)
  {
    hide At, First, Follow, Nullable;
    StartIsFirst(r);
    AroundShape(r);
    Shape(r);
    if p in First(r) {
      FirstInRange(r, 1, p);
      AtRoot(r, Around(r), 1, p);
      HatFreeLeaf(r, Around(r), 1, p);
    }
  }

  /** An expression without ^ has no hat state of its own. */
  lemma NoHatNoState(r: Re)
    requires Parsed(r) && HatFree(r)
    ensures !NewHat(r)
  {
    hide SymAt, FollowAt, Takes, Parsed, HatFree, Start, Hatted;
    HattedParts(r);
    forall p | p in Start(r) - {0} ensures !Takes(SymAt(r, p), HAT) { NoHatAt(r, p); }
    assert Step(r, Start(r) - {0}, HAT) == {};
    assert Start(r) + {} == Start(r);
  }

  // --------------------------------------------------------------- start states

  lemma {:induction false} FirstOrNullable(v: Re)
    ensures Nullable(v) || First(v) != {}
  {
    match v
    case Leaf(sym, idx) => assert sym != EmptyRe ==> idx in First(v);
    case Star(r) =>
    case Plus(r) => FirstOrNullable(r);
    case Quest(r) =>
    case Cat(l, r) => FirstOrNullable(l); FirstOrNullable(r);
    case Or(l, r) => FirstOrNullable(l); FirstOrNullable(r);
  }

  lemma StartNotEmpty(r: Re)
    requires Parsed(r)
    ensures Start(r) - {0} != {}
  {
    StartIsFirst(r);
    FirstOrNullable(r);
    hide First, Follow, At, Start, Nullable;
    if Nullable(r) {
      assert Accept(r) in Start(r) - {0};
    } else {
      var p :| p in First(r);
      FirstInRange(r, 1, p);
      assert p in Start(r) - {0};
    }
  }

  /** The start states keep positions, and stay apart, when position 0 is left out. */
  lemma StartsNotEmpty(r: Re)
    requires Parsed(r)
    ensures Start(r) - {0} != {} && Hatted(r) - {0} != {}
    ensures NewHat(r) ==> Start(r) - {0} != Hatted(r) - {0}
    ensures Positions(r, Hatted(r) - {0}) && Positions(r, Start(r) - {0})
  {
    hide First, Follow, At, Step, Start, Hatted, Parsed, Positions, Nullable, Accept, Root;
    HattedParts(r);
    StartIsFirst(r);
    StartNotEmpty(r);
    Without(Hatted(r), Start(r));
    FewerPositions(r, Hatted(r));
    FewerPositions(r, Start(r));
  }

  lemma FewerPositions(r: Re, s: set<nat>)
    requires Positions(r, s)
    ensures Positions(r, s - {0})
  {
  }

  lemma Without(s: set<nat>, t: set<nat>)
    requires 0 in s && 0 in t
    ensures s != t ==> t - {0} != s - {0}
  {
    assert s == (s - {0}) + {0} && t == (t - {0}) + {0};
  }
}
