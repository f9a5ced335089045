/** Position sets as states: what a set of leaves stands for, one step of the automaton, and the languages
    of its start states. */
module ReSets {
  import opened ReTree

  /** The tree mkdfa builds: any letters, then r, then the end. */
  function Root(r: Re): Re {
    Cat(Cat(Star(Leaf(All, 0)), r), Leaf(Final, 1 + Leaves(r)))
  }

  predicate NoFinal(v: Re) {
    match v
    case Leaf(sym, _) => sym != Final
    case Star(r) => NoFinal(r)
    case Plus(r) => NoFinal(r)
    case Quest(r) => NoFinal(r)
    case Cat(l, r) => NoFinal(l) && NoFinal(r)
    case Or(l, r) => NoFinal(l) && NoFinal(r)
  }

  /** A parsed expression, numbered from position 1. */
  predicate Parsed(r: Re) {
    Numbered(r, 1) && NoFinal(r)
  }

  /** The FINAL position. */
  function Accept(r: Re): nat {
    1 + Leaves(r)
  }

  function SymAt(r: Re, p: nat): Sym {
    At(Root(r), Top, 0, p).leaf.sym
  }

  function FollowAt(r: Re, p: nat): set<nat> {
    var pl := At(Root(r), Top, 0, p);
    Follow(pl.leaf, pl.ctx)
  }

  lemma RootFits(r: Re)
    requires Parsed(r)
    ensures Fits(Root(r), Top, 0) && Leaves(Root(r)) == Accept(r) + 1
  {
    Shape(r);
    assert Leaves(Leaf(Final, Accept(r))) == 1;
  }

  lemma {:induction false} AtFits(v: Re, ctx: Ctx, b: nat, p: nat)
    requires Fits(v, ctx, b) && Numbered(v, b) && b <= p < b + Leaves(v)
    ensures var pl := At(v, ctx, b, p);
            Fits(pl.leaf, pl.ctx, p) && Plug(pl.leaf, pl.ctx) == Plug(v, ctx) && (Ends(pl.leaf, pl.ctx) ==> Ends(v, ctx))
  {
    match v
    case Leaf(_, _) =>
    case Star(r) => AtFits(r, InStar(ctx), b, p);
    case Plus(r) => AtFits(r, InPlus(ctx), b, p);
    case Quest(r) => AtFits(r, InQuest(ctx), b, p);
    case Cat(l, r) =>
      if p < b + Leaves(l) { AtFits(l, CatLeft(r, ctx), b, p); } else { AtFits(r, CatRight(l, ctx), b + Leaves(l), p); }
    case Or(l, r) =>
      if p < b + Leaves(l) { AtFits(l, OrLeft(r, ctx), b, p); } else { AtFits(r, OrRight(l, ctx), b + Leaves(l), p); }
  }

  lemma {:induction false} FinalOnlyLast(v: Re, ctx: Ctx, b: nat, p: nat)
    requires NoFinal(v)
    ensures At(v, ctx, b, p).leaf.sym != Final
  {
    match v
    case Leaf(_, _) =>
    case Star(r) => FinalOnlyLast(r, InStar(ctx), b, p);
    case Plus(r) => FinalOnlyLast(r, InPlus(ctx), b, p);
    case Quest(r) => FinalOnlyLast(r, InQuest(ctx), b, p);
    case Cat(l, r) =>
      FinalOnlyLast(l, CatLeft(r, ctx), b, p);
      FinalOnlyLast(r, CatRight(l, ctx), b + Leaves(l), p);
    case Or(l, r) =>
      FinalOnlyLast(l, OrLeft(r, ctx), b, p);
      FinalOnlyLast(r, OrRight(l, ctx), b + Leaves(l), p);
  }

  function Inner(r: Re): Re {
    Cat(Star(Leaf(All, 0)), r)
  }

  lemma Shape(r: Re)
    requires Parsed(r)
    ensures Root(r) == Cat(Inner(r), Leaf(Final, Accept(r))) && Leaves(Inner(r)) == Accept(r) && NoFinal(Inner(r))
    ensures Fits(Inner(r), CatLeft(Leaf(Final, Accept(r)), Top), 0) && Numbered(Inner(r), 0)
    ensures At(Root(r), Top, 0, Accept(r)) == Place(Leaf(Final, Accept(r)), CatRight(Inner(r), Top))
    ensures At(Root(r), Top, 0, 0) == Place(Leaf(All, 0), InStar(CatLeft(r, CatLeft(Leaf(Final, Accept(r)), Top))))
  {
    var star, last := Star(Leaf(All, 0)), Leaf(Final, Accept(r));
    assert Leaves(star) == Leaves(Leaf(All, 0)) == 1;
    assert Numbered(star, 0) && NoFinal(star);
    assert Numbered(Inner(r), 0);
    assert Numbered(Root(r), 0);
    assert Fits(Root(r), Top, 0);
    assert NoFinal(Inner(r));
    assert Plug(Inner(r), CatLeft(last, Top)) == Root(r);
    assert Fits(Cat(Inner(r), last), Top, 0);
    assert At(Root(r), Top, 0, Accept(r)) == At(last, CatRight(Inner(r), Top), Accept(r), Accept(r));
    assert At(star, CatLeft(r, CatLeft(last, Top)), 0, 0) == At(Leaf(All, 0), InStar(CatLeft(r, CatLeft(last, Top))), 0, 0);
    assert At(Root(r), Top, 0, 0) == At(Inner(r), CatLeft(last, Top), 0, 0) == At(star, CatLeft(r, CatLeft(last, Top)), 0, 0);
  }

  /** Every place before FINAL is a real leaf from which the end is not reached for nothing. */
  lemma InnerPlace(r: Re, p: nat)
    requires Parsed(r) && p < Accept(r)
    ensures var pl := At(Root(r), Top, 0, p);
            Fits(pl.leaf, pl.ctx, p) && Plug(pl.leaf, pl.ctx) == Root(r) && !Ends(pl.leaf, pl.ctx) && pl.leaf.sym != Final
  {
    var inner, last := Inner(r), Leaf(Final, Accept(r));
    Shape(r);
    assert NoFinal(inner);
    AtFits(inner, CatLeft(last, Top), 0, p);
    FinalOnlyLast(inner, CatLeft(last, Top), 0, p);
  }

  // ----------------------------------------------------- what a set stands for

  /** The words that lead from the position set to the end. */
  ghost predicate In(r: Re, s: set<nat>, u: seq<int>) {
    exists p :: p in s && BeginsAt(Root(r), p, u)
  }

  /** A set of positions of r's tree. */
  predicate Positions(r: Re, s: set<nat>) {
    forall p :: p in s ==> p <= Accept(r)
  }

  /** cgoto's step: the follow sets of the positions that take the letter. */
  function Step(r: Re, s: set<nat>, c: int): set<nat> {
    set p, q | p in s && Takes(SymAt(r, p), c) && q in FollowAt(r, p) :: q
  }

  lemma StepMeaning(r: Re, s: set<nat>, c: int, u: seq<int>)
    requires Parsed(r) && Positions(r, s) && c != END
    ensures In(r, Step(r, s, c), u) <==> In(r, s, [c] + u)
  {
    assert ([c] + u)[1..] == u;
    if In(r, Step(r, s, c), u) {
      var q :| q in Step(r, s, c) && BeginsAt(Root(r), q, u);
      var p :| p in s && Takes(SymAt(r, p), c) && q in FollowAt(r, p);
      StepBack(r, p, q, c, u);
    }
    if In(r, s, [c] + u) {
      var p :| p in s && BeginsAt(Root(r), p, [c] + u);
      var q := StepOn(r, p, c, u);
    }
  }

  lemma TakesInner(r: Re, p: nat, c: int)
    requires Parsed(r) && p <= Accept(r) && c != END && Takes(SymAt(r, p), c)
    ensures p < Accept(r)
  {
    Shape(r);
  }

  lemma StepBack(r: Re, p: nat, q: nat, c: int, u: seq<int>)
    requires Parsed(r) && p <= Accept(r) && c != END && Takes(SymAt(r, p), c) && q in FollowAt(r, p)
    requires BeginsAt(Root(r), q, u)
    ensures BeginsAt(Root(r), p, [c] + u)
  {
    TakesInner(r, p, c);
    InnerPlace(r, p);
    var pl := At(Root(r), Top, 0, p);
    hide At, Follow, After, Takes;
    FollowSound(pl.leaf, pl.ctx, p, q, u);
    assert ([c] + u)[1..] == u;
  }

  lemma StepOn(r: Re, p: nat, c: int, u: seq<int>) returns (q: nat)
    requires Parsed(r) && p <= Accept(r) && c != END && BeginsAt(Root(r), p, [c] + u)
    ensures Takes(SymAt(r, p), c) && q in FollowAt(r, p) && BeginsAt(Root(r), q, u)
  {
    assert ([c] + u)[1..] == u;
    TakesInner(r, p, c);
    InnerPlace(r, p);
    var pl := At(Root(r), Top, 0, p);
    hide At, Follow, After, Takes;
    q := FollowComplete(pl.leaf, pl.ctx, p, u);
  }

  /** A set is final just when nothing more is needed. */
  lemma FinalMeaning(r: Re, s: set<nat>)
    requires Parsed(r) && Positions(r, s)
    ensures Accept(r) in s <==> In(r, s, [END])
  {
    Shape(r);
    if Accept(r) in s {
      assert [END][1..] == [];
      assert BeginsAt(Root(r), Accept(r), [END]);
    }
    if In(r, s, [END]) {
      var p :| p in s && BeginsAt(Root(r), p, [END]);
      TakesEnd(SymAt(r, p));
      if p < Accept(r) { InnerPlace(r, p); }
    }
  }

  lemma TakesEnd(sym: Sym)
    ensures Takes(sym, END) ==> sym == Final
  {
  }

  /** Reading a whole word. */
  function Run(r: Re, s: set<nat>, w: seq<int>): set<nat>
    decreases |w|
  {
    if w == [] then s else Step(r, Run(r, s, w[..|w| - 1]), w[|w| - 1])
  }

  predicate NoEnd(w: seq<int>) {
    forall i :: 0 <= i < |w| ==> w[i] != END
  }

  lemma {:induction false} FollowInRange(v: Re, ctx: Ctx, b: nat, q: nat)
    requires Fits(v, ctx, b) && q in Follow(v, ctx)
    ensures q < Leaves(Plug(v, ctx))
    decreases ctx
  {
    FitsNumbered(v, ctx, b);
    PlugLarger(v, ctx, b);
    match ctx
    case InStar(up) => if q in First(v) { FirstInRange(v, b, q); } else { FollowInRange(Star(v), up, b, q); }
    case InPlus(up) => if q in First(v) { FirstInRange(v, b, q); } else { FollowInRange(Plus(v), up, b, q); }
    case InQuest(up) => FollowInRange(Quest(v), up, b, q);
    case CatLeft(r, up) =>
      FitsNumbered(Cat(v, r), up, b);
      PlugLarger(Cat(v, r), up, b);
      if q in First(r) { FirstInRange(r, b + Leaves(v), q); } else { FollowInRange(Cat(v, r), up, b, q); }
    case CatRight(l, up) => FollowInRange(Cat(l, v), up, b - Leaves(l), q);
    case OrLeft(r, up) => FollowInRange(Or(v, r), up, b, q);
    case OrRight(l, up) => FollowInRange(Or(l, v), up, b - Leaves(l), q);
  }

  lemma {:induction false} PlugLarger(v: Re, ctx: Ctx, b: nat)
    requires Fits(v, ctx, b)
    ensures b + Leaves(v) <= Leaves(Plug(v, ctx))
    decreases ctx
  {
    match ctx
    case Top =>
    case InStar(up) => PlugLarger(Star(v), up, b);
    case InPlus(up) => PlugLarger(Plus(v), up, b);
    case InQuest(up) => PlugLarger(Quest(v), up, b);
    case CatLeft(r, up) => PlugLarger(Cat(v, r), up, b);
    case CatRight(l, up) => PlugLarger(Cat(l, v), up, b - Leaves(l));
    case OrLeft(r, up) => PlugLarger(Or(v, r), up, b);
    case OrRight(l, up) => PlugLarger(Or(l, v), up, b - Leaves(l));
  }

  lemma FollowPositions(r: Re, p: nat)
    requires Parsed(r) && p <= Accept(r)
    ensures Positions(r, FollowAt(r, p))
  {
    Shape(r);
    RootFits(r);
    if p == Accept(r) {
      assert Follow(Root(r), Top) == {};
    } else {
      InnerPlace(r, p);
      var pl := At(Root(r), Top, 0, p);
      forall q | q in FollowAt(r, p) ensures q <= Accept(r) {
        FollowInRange(pl.leaf, pl.ctx, p, q);
      }
    }
  }

  lemma StepPositions(r: Re, s: set<nat>, c: int)
    requires Parsed(r) && Positions(r, s)
    ensures Positions(r, Step(r, s, c))
  {
    forall q | q in Step(r, s, c) ensures q <= Accept(r) {
      var p :| p in s && Takes(SymAt(r, p), c) && q in FollowAt(r, p);
      FollowPositions(r, p);
    }
  }

  /** After a word, a set stands for what could follow that word. */
  lemma {:induction false} RunMeaning(r: Re, s: set<nat>, w: seq<int>, u: seq<int>)
    requires Parsed(r) && Positions(r, s) && NoEnd(w)
    ensures Positions(r, Run(r, s, w)) && (In(r, Run(r, s, w), u) <==> In(r, s, w + u))
    decreases |w|
  {
    if w == [] {
      assert w + u == u;
    } else {
      var init, c := w[..|w| - 1], w[|w| - 1];
      RunMeaning(r, s, init, [c] + u);
      StepPositions(r, Run(r, s, init), c);
      StepMeaning(r, Run(r, s, init), c, u);
      assert init + ([c] + u) == w + u;
    }
  }

  /** The automaton accepts exactly the words that complete the tree. */
  lemma RunAccepts(r: Re, s: set<nat>, w: seq<int>)
    requires Parsed(r) && Positions(r, s) && NoEnd(w)
    ensures Accept(r) in Run(r, s, w) <==> In(r, s, w + [END])
  {
    RunMeaning(r, s, w, [END]);
    FinalMeaning(r, Run(r, s, w));
  }

  // ------------------------------------------------------------- start states

  /** The first state: state 2 of an unanchored automaton. */
  function Start(r: Re): set<nat> {
    FollowAt(r, 0)
  }

  lemma StartIsFirst(r: Re)
    requires Parsed(r)
    ensures Start(r) == {0} + (if Nullable(r) then First(r) + {Accept(r)} else First(r)) == First(Root(r))
    ensures Positions(r, Start(r)) && 0 in Start(r)
  {
    Shape(r);
    FollowPositions(r, 0);
    var last := Leaf(Final, Accept(r));
    var star := Star(Leaf(All, 0));
    assert First(Leaf(All, 0)) == {0} && First(last) == {Accept(r)};
    assert Follow(star, CatLeft(r, CatLeft(last, Top)))
        == if Nullable(r) then First(r) + Follow(Cat(star, r), CatLeft(last, Top)) else First(r);
    assert Follow(Cat(star, r), CatLeft(last, Top)) == First(last);
    assert First(star) == {0} && Nullable(star);
    assert First(Inner(r)) == {0} + First(r);
    assert Nullable(Inner(r)) == Nullable(r);
  }

  lemma StartMeaning(r: Re, u: seq<int>)
    requires Parsed(r)
    ensures In(r, Start(r), u) <==> Lang(Root(r), u)
  {
    StartIsFirst(r);
    Shape(r);
    hide Lang, At;
    if In(r, Start(r), u) {
      var p :| p in First(Root(r)) && BeginsAt(Root(r), p, u);
      var k := FirstStarts(Root(r), Top, 0, p, u);
      assert u[..k] == u;
    }
    if Lang(Root(r), u) {
      RootNonempty(r, u);
      assert u[..|u|] == u && u[|u|..] == [];
      assert Starts(Root(r), Top, u, |u|);
      var p := NonemptyStart(Root(r), Top, 0, u, |u|);
    }
  }

  lemma RootNonempty(r: Re, u: seq<int>)
    requires Lang(Root(r), u)
    ensures u != []
  {
    var k := CatElim(Inner(r), Leaf(Final, Accept(r)), u);
  }

  /** r's own words, ended. */
  ghost predicate Ended(r: Re, u: seq<int>) {
    u != [] && u[|u| - 1] == END && Lang(r, u[..|u| - 1])
  }

  /** Where r stands in the tree. */
  function Around(r: Re): Ctx {
    CatRight(Star(Leaf(All, 0)), CatLeft(Leaf(Final, Accept(r)), Top))
  }

  lemma AroundShape(r: Re)
    requires Parsed(r)
    ensures Fits(r, Around(r), 1) && Plug(r, Around(r)) == Root(r)
  {
    Shape(r);
    assert Leaves(Star(Leaf(All, 0))) == Leaves(Leaf(All, 0)) == 1;
    assert Plug(Inner(r), CatLeft(Leaf(Final, Accept(r)), Top)) == Root(r);
  }

  /** After r comes only the end. */
  lemma AfterR(r: Re, u: seq<int>)
    ensures After(r, Around(r), u) <==> u == [END]
  {
    var last := Leaf(Final, Accept(r));
    PassUp(r, Around(r), u);
    var ctx := CatLeft(last, Top);
    if After(Inner(r), ctx, u) {
      var k := AfterElim(Inner(r), ctx, u);
      assert u[k..] == [] && u[..k] == u;
    }
    if u == [END] {
      assert u[..1] == u && u[1..] == [];
      AfterIntro(Inner(r), ctx, u, 1);
    }
  }

  /** Without position 0 the start state stands for r alone. */
  lemma AnchoredStart(r: Re, u: seq<int>)
    requires Parsed(r)
    ensures In(r, Start(r) - {0}, u) <==> Ended(r, u)
  {
    StartIsFirst(r);
    AroundShape(r);
    if In(r, Start(r) - {0}, u) {
      var p :| p in Start(r) - {0} && BeginsAt(Root(r), p, u);
      if p in First(r) {
        FirstInRange(r, 1, p);
        AtRoot(r, Around(r), 1, p);
        FirstEnded(r, p, u);
      } else {
        OnlyEnd(r, u);
      }
    }
    if Ended(r, u) {
      EndedBegins(r, u);
    }
  }

  lemma FirstEnded(r: Re, p: nat, u: seq<int>)
    requires Parsed(r) && p in First(r) && Begins(At(r, Around(r), 1, p), u)
    ensures Ended(r, u)
  {
    hide Lang, At, After;
    var k := FirstStarts(r, Around(r), 1, p, u);
    AfterR(r, u[k..]);
    assert u[..|u| - 1] == u[..k];
  }

  lemma OnlyEnd(r: Re, u: seq<int>)
    requires Parsed(r) && Nullable(r) && BeginsAt(Root(r), Accept(r), u)
    ensures Ended(r, u)
  {
    Shape(r);
    NullableIsEmpty(r);
    PassUp(Leaf(Final, Accept(r)), CatRight(Inner(r), Top), u[1..]);
    assert u[1..] == [];
    assert u[..|u| - 1] == [];
  }

  lemma EndedBegins(r: Re, u: seq<int>)
    requires Parsed(r) && Ended(r, u)
    ensures In(r, Start(r) - {0}, u)
  {
    StartIsFirst(r);
    AroundShape(r);
    var k := |u| - 1;
    assert u[k..] == [END];
    if k > 0 {
      AfterR(r, u[k..]);
      hide Lang, At, After;
      var p := NonemptyStart(r, Around(r), 1, u, k);
      FirstInRange(r, 1, p);
      AtRoot(r, Around(r), 1, p);
      assert BeginsAt(Root(r), p, u);
    } else {
      assert u[..k] == [] && u == [END];
      NullableIsEmpty(r);
      FinalMeaning(r, {Accept(r)});
      var p :| p in {Accept(r)} && BeginsAt(Root(r), p, [END]);
    }
  }

  // ----------------------------------------- nothing in r leads back to position 0

  /** Everything that follows v lies at lo or above. */
  predicate Guarded(v: Re, ctx: Ctx, b: nat, lo: nat)
    decreases ctx
  {
    match ctx
    case Top => true
    case InStar(up) => b >= lo && Guarded(Star(v), up, b, lo)
    case InPlus(up) => b >= lo && Guarded(Plus(v), up, b, lo)
    case InQuest(up) => Guarded(Quest(v), up, b, lo)
    case CatLeft(r, up) => b + Leaves(v) >= lo && Guarded(Cat(v, r), up, b, lo)
    case CatRight(l, up) => b >= Leaves(l) && Guarded(Cat(l, v), up, b - Leaves(l), lo)
    case OrLeft(r, up) => Guarded(Or(v, r), up, b, lo)
    case OrRight(l, up) => b >= Leaves(l) && Guarded(Or(l, v), up, b - Leaves(l), lo)
  }

  lemma {:induction false} FollowGuarded(v: Re, ctx: Ctx, b: nat, lo: nat, q: nat)
    requires Fits(v, ctx, b) && Guarded(v, ctx, b, lo) && q in Follow(v, ctx)
    ensures q >= lo
    decreases ctx
  {
    FitsNumbered(v, ctx, b);
    match ctx
    case InStar(up) => if q in First(v) { FirstInRange(v, b, q); } else { FollowGuarded(Star(v), up, b, lo, q); }
    case InPlus(up) => if q in First(v) { FirstInRange(v, b, q); } else { FollowGuarded(Plus(v), up, b, lo, q); }
    case InQuest(up) => FollowGuarded(Quest(v), up, b, lo, q);
    case CatLeft(r, up) =>
      FitsNumbered(Cat(v, r), up, b);
      if q in First(r) { FirstInRange(r, b + Leaves(v), q); } else { FollowGuarded(Cat(v, r), up, b, lo, q); }
    case CatRight(l, up) => FollowGuarded(Cat(l, v), up, b - Leaves(l), lo, q);
    case OrLeft(r, up) => FollowGuarded(Or(v, r), up, b, lo, q);
    case OrRight(l, up) => FollowGuarded(Or(l, v), up, b - Leaves(l), lo, q);
  }

  lemma {:induction false} GuardDown(v: Re, ctx: Ctx, b: nat, lo: nat, p: nat)
    requires Guarded(v, ctx, b, lo) && b >= lo && Numbered(v, b) && b <= p < b + Leaves(v)
    ensures var pl := At(v, ctx, b, p); Guarded(pl.leaf, pl.ctx, p, lo)
  {
    match v
    case Leaf(_, _) =>
    case Star(r) => GuardDown(r, InStar(ctx), b, lo, p);
    case Plus(r) => GuardDown(r, InPlus(ctx), b, lo, p);
    case Quest(r) => GuardDown(r, InQuest(ctx), b, lo, p);
    case Cat(l, r) =>
      if p < b + Leaves(l) { GuardDown(l, CatLeft(r, ctx), b, lo, p); } else { GuardDown(r, CatRight(l, ctx), b + Leaves(l), lo, p); }
    case Or(l, r) =>
      if p < b + Leaves(l) { GuardDown(l, OrLeft(r, ctx), b, lo, p); } else { GuardDown(r, OrRight(l, ctx), b + Leaves(l), lo, p); }
  }

  lemma NeverBack(r: Re, p: nat)
    requires Parsed(r) && 0 < p <= Accept(r)
    ensures 0 !in FollowAt(r, p)
  {
    Shape(r);
    AroundShape(r);
    if p < Accept(r) {
      var star := Star(Leaf(All, 0));
      assert Leaves(star) == Leaves(Leaf(All, 0)) == 1;
      assert Guarded(Root(r), Top, 0, 1);
      assert Guarded(Inner(r), CatLeft(Leaf(Final, Accept(r)), Top), 0, 1);
      assert Guarded(r, Around(r), 1, 1);
      GuardDown(r, Around(r), 1, 1, p);
      AtRoot(r, Around(r), 1, p);
      InnerPlace(r, p);
      var pl := At(Root(r), Top, 0, p);
      if 0 in Follow(pl.leaf, pl.ctx) { FollowGuarded(pl.leaf, pl.ctx, p, 1, 0); }
    } else {
      assert Follow(Root(r), Top) == {};
    }
  }

  // -------------------------------------------------------- after the hat

  /** The state a match at the start of the string begins in. */
  function Hatted(r: Re): set<nat> {
    Step(r, Start(r), HAT)
  }

  lemma StepSplit(r: Re, s: set<nat>, c: int, p: nat)
    requires p in s && Takes(SymAt(r, p), c)
    ensures Step(r, s, c) == FollowAt(r, p) + Step(r, s - {p}, c)
  {
    hide SymAt, FollowAt, Takes;
  }

  lemma StepNeverBack(r: Re, s: set<nat>, c: int)
    requires Parsed(r) && Positions(r, s) && 0 !in s
    ensures 0 !in Step(r, s, c)
  {
    if 0 in Step(r, s, c) {
      var p :| p in s && Takes(SymAt(r, p), c) && 0 in FollowAt(r, p);
      NeverBack(r, p);
    }
  }

  /** Reading the hat keeps the start state and adds what follows ^. */
  lemma HattedParts(r: Re)
    requires Parsed(r)
    ensures Hatted(r) == Start(r) + Step(r, Start(r) - {0}, HAT)
    ensures 0 in Hatted(r) && Positions(r, Hatted(r))
    ensures Hatted(r) - {0} == (Start(r) - {0}) + Step(r, Start(r) - {0}, HAT)
  {
    StartIsFirst(r);
    Shape(r);
    assert Takes(SymAt(r, 0), HAT);
    hide Step, At, First, Follow, Takes, Nullable;
    StepPositions(r, Start(r), HAT);
    StepSplit(r, Start(r), HAT, 0);
    StepNeverBack(r, Start(r) - {0}, HAT);
  }

  /** An anchored match at the start of the string may begin with or without the hat. */
  lemma AnchoredHatted(r: Re, u: seq<int>)
    requires Parsed(r)
    ensures In(r, Hatted(r) - {0}, u) <==> Ended(r, u) || Ended(r, [HAT] + u)
  {
    HattedParts(r);
    StartIsFirst(r);
    var s := Start(r) - {0};
    InUnion(r, s, Step(r, s, HAT), u);
    StepMeaning(r, s, HAT, u);
    AnchoredStart(r, u);
    AnchoredStart(r, [HAT] + u);
  }

  lemma InUnion(r: Re, s: set<nat>, t: set<nat>, u: seq<int>)
    ensures In(r, s + t, u) <==> In(r, s, u) || In(r, t, u)
  {
  }

  // ------------------------------------------------------------ the prefix loop

  predicate NoNul(w: seq<int>) {
    forall i :: 0 <= i < |w| ==> w[i] != 0 && w[i] != END
  }

  lemma {:induction false} AllStar(y: seq<int>)
    ensures Lang(Star(Leaf(All, 0)), y) <==> NoNul(y)
    decreases |y|
  {
    var leaf := Leaf(All, 0);
    if y != [] {
      AllStar(y[1..]);
      if Lang(Star(leaf), y) {
        var j := StarElim(leaf, y);
        assert y[..j] == [y[0]] && y[j..] == y[1..];
        assert y == [y[0]] + y[1..];
      }
      if NoNul(y) {
        assert y[..1] == [y[0]];
        LoopIntro(leaf, y, 1);
      }
    }
  }

  /** x is any letters, then a word of r. */
  ghost predicate SomewhereIn(r: Re, x: seq<int>) {
    exists k :: 0 <= k <= |x| && NoNul(x[..k]) && Lang(r, x[k..])
  }

  lemma RootLang(r: Re, x: seq<int>)
    ensures Lang(Root(r), x + [END]) <==> SomewhereIn(r, x)
  {
    var u, last := x + [END], Leaf(Final, Accept(r));
    if Lang(Root(r), u) {
      var j := CatElim(Inner(r), last, u);
      assert u[..j] == x;
      var k := CatElim(Star(Leaf(All, 0)), r, x);
      AllStar(x[..k]);
    }
    if SomewhereIn(r, x) {
      var k :| 0 <= k <= |x| && NoNul(x[..k]) && Lang(r, x[k..]);
      AllStar(x[..k]);
      CatIntro(Star(Leaf(All, 0)), r, x, k);
      assert u[..|x|] == x && u[|x|..] == [END];
      CatIntro(Inner(r), last, u, |x|);
    }
  }
}
