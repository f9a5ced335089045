/** Regular expression trees of awk/b.c: their languages, the leaves that can begin a match (first) and
    those that can follow a leaf (follow), and why those sets are right. */
module ReTree {
  const NCHARS: nat := 256 + 3

  /** The letter that ^ stands for. */
  const HAT: int := NCHARS + 2

  /** The end marker the FINAL leaf stands for; no input holds it. */
  const END: int := -1

  datatype Sym = Char(c: int) | Dot | All | Ccl(chars: seq<int>) | NCcl(chars: seq<int>) | EmptyRe | Final

  datatype Re = Leaf(sym: Sym, idx: nat) | Star(r: Re) | Plus(r: Re) | Quest(r: Re) | Cat(left: Re, right: Re) | Or(left: Re, right: Re)

  /** Whether a leaf takes the letter. */
  predicate Takes(sym: Sym, c: int) {
    match sym
    case Char(x) => c == x && c != END
    case Dot => c != 0 && c != HAT && c != END
    case All => c != 0 && c != END
    case Ccl(chars) => c in chars && c != END
    case NCcl(chars) => c !in chars && c != 0 && c != HAT && c != END
    case EmptyRe => false
    case Final => c == END
  }

  /** An empty class, as () is parsed to, matches the empty string. */
  predicate EmptySym(sym: Sym) {
    sym == EmptyRe || sym == Ccl([])
  }

  function Size(v: Re): nat {
    match v
    case Leaf(_, _) => 1
    case Star(r) => 1 + Size(r)
    case Plus(r) => 2 + Size(r)
    case Quest(r) => 1 + Size(r)
    case Cat(l, r) => 1 + Size(l) + Size(r)
    case Or(l, r) => 1 + Size(l) + Size(r)
  }

  /** The language of a tree. */
  ghost predicate Lang(v: Re, w: seq<int>)
    decreases Size(v), |w|
  {
    match v
    case Leaf(sym, _) => if EmptySym(sym) then w == [] else |w| == 1 && Takes(sym, w[0])
    case Star(r) => w == [] || exists k :: 0 < k <= |w| && Lang(r, w[..k]) && Lang(v, w[k..])
    case Plus(r) => exists k :: 0 <= k <= |w| && Lang(r, w[..k]) && Lang(Star(r), w[k..])
    case Quest(r) => w == [] || Lang(r, w)
    case Cat(l, r) => exists k :: 0 <= k <= |w| && Lang(l, w[..k]) && Lang(r, w[k..])
    case Or(l, r) => Lang(l, w) || Lang(r, w)
  }

  predicate Nullable(v: Re) {
    match v
    case Leaf(sym, _) => EmptySym(sym)
    case Star(r) => true
    case Plus(r) => Nullable(r)
    case Quest(r) => true
    case Cat(l, r) => Nullable(l) && Nullable(r)
    case Or(l, r) => Nullable(l) || Nullable(r)
  }

  lemma SplitEmpty()
    ensures var e: seq<int> := []; e[..0] == e && e[0..] == e
  {
  }

  lemma {:induction false} NullableIsEmpty(v: Re)
    ensures Nullable(v) <==> Lang(v, [])
    decreases Size(v)
  {
    match v
    case Leaf(sym, _) =>
    case Star(r) =>
    case Plus(r) =>
      NullableIsEmpty(r);
      SplitEmpty();
      assert Lang(Star(r), []);
    case Quest(r) =>
    case Cat(l, r) =>
      NullableIsEmpty(l);
      NullableIsEmpty(r);
      SplitEmpty();
    case Or(l, r) =>
      NullableIsEmpty(l);
      NullableIsEmpty(r);
  }

  /** The leaves that can take the first letter. */
  function First(v: Re): set<nat> {
    match v
    case Leaf(sym, idx) => if sym == EmptyRe then {} else {idx}
    case Star(r) => First(r)
    case Plus(r) => First(r)
    case Quest(r) => First(r)
    case Cat(l, r) => if Nullable(l) then First(l) + First(r) else First(l)
    case Or(l, r) => First(l) + First(r)
  }

  // ---------------------------------------------------------------- contexts

  /** The way from a subtree up to the root, as the parent links have it. */
  datatype Ctx = Top | InStar(up: Ctx) | InPlus(up: Ctx) | InQuest(up: Ctx)
               | CatLeft(right: Re, up: Ctx) | CatRight(left: Re, up: Ctx)
               | OrLeft(right: Re, up: Ctx) | OrRight(left: Re, up: Ctx)

  function Parent(v: Re, ctx: Ctx): Re
    requires ctx != Top
  {
    match ctx
    case InStar(_) => Star(v)
    case InPlus(_) => Plus(v)
    case InQuest(_) => Quest(v)
    case CatLeft(r, _) => Cat(v, r)
    case CatRight(l, _) => Cat(l, v)
    case OrLeft(r, _) => Or(v, r)
    case OrRight(l, _) => Or(l, v)
  }

  /** Words that complete the whole tree once v has matched. */
  ghost predicate After(v: Re, ctx: Ctx, u: seq<int>)
    decreases ctx
  {
    match ctx
    case Top => u == []
    case InStar(up) => exists k :: 0 <= k <= |u| && Lang(Star(v), u[..k]) && After(Star(v), up, u[k..])
    case InPlus(up) => exists k :: 0 <= k <= |u| && Lang(Star(v), u[..k]) && After(Plus(v), up, u[k..])
    case InQuest(up) => After(Quest(v), up, u)
    case CatLeft(r, up) => exists k :: 0 <= k <= |u| && Lang(r, u[..k]) && After(Cat(v, r), up, u[k..])
    case CatRight(l, up) => After(Cat(l, v), up, u)
    case OrLeft(r, up) => After(Or(v, r), up, u)
    case OrRight(l, up) => After(Or(l, v), up, u)
  }

  /** The leaves that can come after v: what follow() collects. */
  function Follow(v: Re, ctx: Ctx): set<nat>
    decreases ctx
  {
    match ctx
    case Top => {}
    case InStar(up) => First(v) + Follow(Star(v), up)
    case InPlus(up) => First(v) + Follow(Plus(v), up)
    case InQuest(up) => Follow(Quest(v), up)
    case CatLeft(r, up) => if Nullable(r) then First(r) + Follow(Cat(v, r), up) else First(r)
    case CatRight(l, up) => Follow(Cat(l, v), up)
    case OrLeft(r, up) => Follow(Or(v, r), up)
    case OrRight(l, up) => Follow(Or(l, v), up)
  }

  /** v can match the empty string's way to the very end. */
  predicate Ends(v: Re, ctx: Ctx)
    decreases ctx
  {
    match ctx
    case Top => true
    case InStar(up) => Ends(Star(v), up)
    case InPlus(up) => Ends(Plus(v), up)
    case InQuest(up) => Ends(Quest(v), up)
    case CatLeft(r, up) => Nullable(r) && Ends(Cat(v, r), up)
    case CatRight(l, up) => Ends(Cat(l, v), up)
    case OrLeft(r, up) => Ends(Or(v, r), up)
    case OrRight(l, up) => Ends(Or(l, v), up)
  }

  // --------------------------------------------------------------- positions

  function Leaves(v: Re): (n: nat)
    ensures n > 0
  {
    match v
    case Leaf(_, _) => 1
    case Star(r) => Leaves(r)
    case Plus(r) => Leaves(r)
    case Quest(r) => Leaves(r)
    case Cat(l, r) => Leaves(l) + Leaves(r)
    case Or(l, r) => Leaves(l) + Leaves(r)
  }

  /** Leaves are numbered from b, left to right. */
  predicate Numbered(v: Re, b: nat) {
    match v
    case Leaf(_, idx) => idx == b
    case Star(r) => Numbered(r, b)
    case Plus(r) => Numbered(r, b)
    case Quest(r) => Numbered(r, b)
    case Cat(l, r) => Numbered(l, b) && Numbered(r, b + Leaves(l))
    case Or(l, r) => Numbered(l, b) && Numbered(r, b + Leaves(l))
  }

  /** A leaf and the way up from it. */
  datatype Place = Place(leaf: Re, ctx: Ctx)

  function At(v: Re, ctx: Ctx, b: nat, p: nat): (pl: Place)
    ensures pl.leaf.Leaf?
  {
    match v
    case Leaf(_, _) => Place(v, ctx)
    case Star(r) => At(r, InStar(ctx), b, p)
    case Plus(r) => At(r, InPlus(ctx), b, p)
    case Quest(r) => At(r, InQuest(ctx), b, p)
    case Cat(l, r) => if p < b + Leaves(l) then At(l, CatLeft(r, ctx), b, p) else At(r, CatRight(l, ctx), b + Leaves(l), p)
    case Or(l, r) => if p < b + Leaves(l) then At(l, OrLeft(r, ctx), b, p) else At(r, OrRight(l, ctx), b + Leaves(l), p)
  }

  /** A leaf takes the first letter and the rest completes the tree. */
  ghost predicate Begins(pl: Place, u: seq<int>) {
    pl.leaf.Leaf? && u != [] && Takes(pl.leaf.sym, u[0]) && After(pl.leaf, pl.ctx, u[1..])
  }

  lemma {:induction false} FirstInRange(v: Re, b: nat, p: nat)
    requires Numbered(v, b) && p in First(v)
    ensures b <= p < b + Leaves(v)
  {
    match v
    case Leaf(_, _) =>
    case Star(r) => FirstInRange(r, b, p);
    case Plus(r) => FirstInRange(r, b, p);
    case Quest(r) => FirstInRange(r, b, p);
    case Cat(l, r) => if p in First(l) { FirstInRange(l, b, p); } else { FirstInRange(r, b + Leaves(l), p); }
    case Or(l, r) => if p in First(l) { FirstInRange(l, b, p); } else { FirstInRange(r, b + Leaves(l), p); }
  }

  /** v matches the first k letters and the rest completes the tree. */
  ghost predicate Starts(v: Re, ctx: Ctx, u: seq<int>, k: nat) {
    k <= |u| && Lang(v, u[..k]) && After(v, ctx, u[k..])
  }

  // ------------------------------------------- a nonempty start begins at a leaf

  lemma Cuts(u: seq<int>, j: nat, k: nat)
    requires j <= k <= |u|
    ensures u[..k][..j] == u[..j] && u[..k][j..] == u[j..][..k - j] && u[j..][k - j..] == u[k..]
  {
  }

  lemma {:induction false} NonemptyStart(v: Re, ctx: Ctx, b: nat, u: seq<int>, k: nat) returns (p: nat)
    requires Numbered(v, b) && k > 0 && Starts(v, ctx, u, k)
    ensures p in First(v) && Begins(At(v, ctx, b, p), u)
    decreases Size(v), k
  {
    match v
    case Leaf(sym, idx) =>
      p := idx;
      assert u[..k][0] == u[0];
    case Star(r) =>
      p := StarStart(r, ctx, b, u, k);
    case Plus(r) =>
      p := PlusStart(r, ctx, b, u, k);
    case Quest(r) =>
      p := NonemptyStart(r, InQuest(ctx), b, u, k);
    case Cat(l, r) =>
      p := CatStart(l, r, ctx, b, u, k);
    case Or(l, r) =>
      if Lang(l, u[..k]) {
        p := NonemptyStart(l, OrLeft(r, ctx), b, u, k);
        FirstInRange(l, b, p);
      } else {
        p := NonemptyStart(r, OrRight(l, ctx), b + Leaves(l), u, k);
        FirstInRange(r, b + Leaves(l), p);
      }
  }

  // The existentials of Lang and After, opened and closed one at a time.

  lemma StarElim(r: Re, w: seq<int>) returns (j: nat)
    requires w != [] && Lang(Star(r), w)
    ensures 0 < j <= |w| && Lang(r, w[..j]) && Lang(Star(r), w[j..])
  {
    j :| 0 < j <= |w| && Lang(r, w[..j]) && Lang(Star(r), w[j..]);
  }

  lemma PlusElim(r: Re, w: seq<int>) returns (j: nat)
    requires Lang(Plus(r), w)
    ensures 0 <= j <= |w| && Lang(r, w[..j]) && Lang(Star(r), w[j..])
  {
    j :| 0 <= j <= |w| && Lang(r, w[..j]) && Lang(Star(r), w[j..]);
  }

  lemma CatElim(l: Re, r: Re, w: seq<int>) returns (j: nat)
    requires Lang(Cat(l, r), w)
    ensures 0 <= j <= |w| && Lang(l, w[..j]) && Lang(r, w[j..])
  {
    j :| 0 <= j <= |w| && Lang(l, w[..j]) && Lang(r, w[j..]);
  }

  lemma LoopIntro(r: Re, w: seq<int>, j: nat)
    requires j <= |w| && Lang(r, w[..j]) && Lang(Star(r), w[j..])
    ensures Lang(Star(r), w) && Lang(Plus(r), w)
  {
    if j == 0 { assert w[0..] == w; }
  }

  lemma CatIntro(l: Re, r: Re, w: seq<int>, j: nat)
    requires j <= |w| && Lang(l, w[..j]) && Lang(r, w[j..])
    ensures Lang(Cat(l, r), w)
  {
  }

  /** What a loop or a left part has still to match before its parent is done. */
  function Rest(v: Re, ctx: Ctx): Re
    requires ctx.InStar? || ctx.InPlus? || ctx.CatLeft?
  {
    if ctx.CatLeft? then ctx.right else Star(v)
  }

  lemma AfterElim(v: Re, ctx: Ctx, u: seq<int>) returns (k: nat)
    requires (ctx.InStar? || ctx.InPlus? || ctx.CatLeft?) && After(v, ctx, u)
    ensures 0 <= k <= |u| && Lang(Rest(v, ctx), u[..k]) && After(Parent(v, ctx), ctx.up, u[k..])
  {
    k :| 0 <= k <= |u| && Lang(Rest(v, ctx), u[..k]) && After(Parent(v, ctx), ctx.up, u[k..]);
  }

  lemma AfterIntro(v: Re, ctx: Ctx, u: seq<int>, k: nat)
    requires ctx.InStar? || ctx.InPlus? || ctx.CatLeft?
    requires k <= |u| && Lang(Rest(v, ctx), u[..k]) && After(Parent(v, ctx), ctx.up, u[k..])
    ensures After(v, ctx, u)
  {
  }

  lemma PlusIsStar(r: Re, w: seq<int>)
    requires Lang(Plus(r), w)
    ensures Lang(Star(r), w)
  {
    hide Lang;
    var j := PlusElim(r, w);
    LoopIntro(r, w, j);
  }

  /** The first nonempty round of a loop. */
  lemma LoopSplit(r: Re, ctx: Ctx, u: seq<int>, k: nat) returns (j: nat)
    requires (ctx.InStar? || ctx.InPlus?) && 0 < k <= |u|
    requires Lang(Star(r), u[..k]) && After(Parent(r, ctx), ctx.up, u[k..])
    ensures 0 < j <= k && Starts(r, ctx, u, j)
  {
    hide Lang, After;
    j := StarElim(r, u[..k]);
    Cuts(u, j, k);
    AfterIntro(r, ctx, u[j..], k - j);
  }

  lemma {:induction false} PlusStart(r: Re, ctx: Ctx, b: nat, u: seq<int>, k: nat) returns (p: nat)
    requires Numbered(r, b) && k > 0 && Starts(Plus(r), ctx, u, k)
    ensures p in First(r) && Begins(At(r, InPlus(ctx), b, p), u)
    decreases Size(r), k + 1
  {
    hide Lang, After, Begins, At;
    PlusIsStar(r, u[..k]);
    var j := LoopSplit(r, InPlus(ctx), u, k);
    p := NonemptyStart(r, InPlus(ctx), b, u, j);
  }

  lemma {:induction false} StarStart(r: Re, ctx: Ctx, b: nat, u: seq<int>, k: nat) returns (p: nat)
    requires Numbered(r, b) && k > 0 && Starts(Star(r), ctx, u, k)
    ensures p in First(r) && Begins(At(r, InStar(ctx), b, p), u)
    decreases Size(r), k + 1
  {
    hide Lang, After, Begins, At;
    var j := LoopSplit(r, InStar(ctx), u, k);
    p := NonemptyStart(r, InStar(ctx), b, u, j);
  }

  /** Where a match of a concatenation passes from its left part to its right. */
  lemma CatSplit(l: Re, r: Re, ctx: Ctx, u: seq<int>, k: nat) returns (j: nat)
    requires Starts(Cat(l, r), ctx, u, k)
    ensures j <= k && Starts(l, CatLeft(r, ctx), u, j)
    ensures j == 0 ==> Nullable(l) && Starts(r, CatRight(l, ctx), u, k)
  {
    NullableIsEmpty(l);
    PassUp(r, CatRight(l, ctx), u[k..]);
    hide Lang, After;
    j := CatElim(l, r, u[..k]);
    Cuts(u, j, k);
    AfterIntro(l, CatLeft(r, ctx), u[j..], k - j);
    assert u[..k][0..] == u[..k];
    assert j == 0 ==> u[..j] == [];
  }

  /** Contexts that ask nothing more. */
  lemma PassUp(v: Re, ctx: Ctx, u: seq<int>)
    requires ctx.InQuest? || ctx.CatRight? || ctx.OrLeft? || ctx.OrRight?
    ensures After(v, ctx, u) == After(Parent(v, ctx), ctx.up, u)
  {
  }

  lemma {:induction false} CatStart(l: Re, r: Re, ctx: Ctx, b: nat, u: seq<int>, k: nat) returns (p: nat)
    requires Numbered(Cat(l, r), b) && k > 0 && Starts(Cat(l, r), ctx, u, k)
    ensures p in First(Cat(l, r)) && Begins(At(Cat(l, r), ctx, b, p), u)
    decreases Size(l) + Size(r), k + 1
  {
    hide Lang, After, Starts;
    var j := CatSplit(l, r, ctx, u, k);
    if j > 0 {
      p := NonemptyStart(l, CatLeft(r, ctx), b, u, j);
      FirstInRange(l, b, p);
    } else {
      p := NonemptyStart(r, CatRight(l, ctx), b + Leaves(l), u, k);
      FirstInRange(r, b + Leaves(l), p);
    }
  }

  // ---------------------------------------------- and every first leaf starts v

  lemma ChildStarts(r: Re, ctx: Ctx, u: seq<int>, k: nat)
    requires ctx != Top && !ctx.InStar? && !ctx.InPlus? && !ctx.CatLeft? && !ctx.CatRight? && Starts(r, ctx, u, k)
    ensures Starts(Parent(r, ctx), ctx.up, u, k)
  {
  }

  lemma {:induction false} FirstStarts(v: Re, ctx: Ctx, b: nat, p: nat, u: seq<int>) returns (k: nat)
    requires Numbered(v, b) && p in First(v) && Begins(At(v, ctx, b, p), u)
    ensures Starts(v, ctx, u, k)
    decreases Size(v)
  {
    hide Lang, After;
    match v
    case Leaf(sym, idx) =>
      k := LeafStarts(v, ctx, u);
    case Star(r) =>
      k := FirstStarts(r, InStar(ctx), b, p, u);
      k := LoopLonger(r, InStar(ctx), u, k);
    case Plus(r) =>
      k := FirstStarts(r, InPlus(ctx), b, p, u);
      k := LoopLonger(r, InPlus(ctx), u, k);
    case Quest(r) =>
      k := FirstStarts(r, InQuest(ctx), b, p, u);
      ChildStarts(r, InQuest(ctx), u, k);
    case Cat(l, r) =>
      k := FirstStartsCat(l, r, ctx, b, p, u);
    case Or(l, r) =>
      if p in First(l) {
        FirstInRange(l, b, p);
        k := FirstStarts(l, OrLeft(r, ctx), b, p, u);
        ChildStarts(l, OrLeft(r, ctx), u, k);
      } else {
        FirstInRange(r, b + Leaves(l), p);
        k := FirstStarts(r, OrRight(l, ctx), b + Leaves(l), p, u);
        ChildStarts(r, OrRight(l, ctx), u, k);
      }
  }

  lemma LeafStarts(v: Re, ctx: Ctx, u: seq<int>) returns (k: nat)
    requires v.Leaf? && Begins(Place(v, ctx), u)
    ensures Starts(v, ctx, u, k)
  {
    k := 1;
  }

  lemma LoopLonger(r: Re, ctx: Ctx, u: seq<int>, i: nat) returns (k: nat)
    requires (ctx.InStar? || ctx.InPlus?) && Starts(r, ctx, u, i)
    ensures i <= k && Starts(Parent(r, ctx), ctx.up, u, k) && Lang(Star(r), u[..k])
  {
    hide Lang, After;
    var j := AfterElim(r, ctx, u[i..]);
    k := i + j;
    Cuts(u, i, k);
    LoopIntro(r, u[..k], i);
  }

  lemma CatLonger(l: Re, r: Re, ctx: Ctx, u: seq<int>, i: nat) returns (k: nat)
    requires Starts(l, CatLeft(r, ctx), u, i)
    ensures Starts(Cat(l, r), ctx, u, k)
  {
    hide Lang, After;
    var j := AfterElim(l, CatLeft(r, ctx), u[i..]);
    k := i + j;
    Cuts(u, i, k);
    CatIntro(l, r, u[..k], i);
  }

  lemma CatFromRight(l: Re, r: Re, ctx: Ctx, u: seq<int>, k: nat)
    requires Nullable(l) && Starts(r, CatRight(l, ctx), u, k)
    ensures Starts(Cat(l, r), ctx, u, k)
  {
    NullableIsEmpty(l);
    PassUp(r, CatRight(l, ctx), u[k..]);
    hide Lang, After;
    assert u[..k][..0] == [] && u[..k][0..] == u[..k];
    CatIntro(l, r, u[..k], 0);
  }

  lemma {:induction false} FirstStartsCat(l: Re, r: Re, ctx: Ctx, b: nat, p: nat, u: seq<int>) returns (k: nat)
    requires Numbered(Cat(l, r), b) && p in First(Cat(l, r)) && Begins(At(Cat(l, r), ctx, b, p), u)
    ensures Starts(Cat(l, r), ctx, u, k)
    decreases Size(l) + Size(r)
  {
    hide Lang, After;
    if p in First(l) {
      FirstInRange(l, b, p);
      var i := FirstStarts(l, CatLeft(r, ctx), b, p, u);
      k := CatLonger(l, r, ctx, u, i);
    } else {
      FirstInRange(r, b + Leaves(l), p);
      k := FirstStarts(r, CatRight(l, ctx), b + Leaves(l), p, u);
      CatFromRight(l, r, ctx, u, k);
    }
  }

  // ------------------------------------------------------- follow is what follows

  /** The whole tree around a subtree. */
  function Plug(v: Re, ctx: Ctx): Re
    decreases ctx
  {
    match ctx
    case Top => v
    case InStar(up) => Plug(Star(v), up)
    case InPlus(up) => Plug(Plus(v), up)
    case InQuest(up) => Plug(Quest(v), up)
    case CatLeft(r, up) => Plug(Cat(v, r), up)
    case CatRight(l, up) => Plug(Cat(l, v), up)
    case OrLeft(r, up) => Plug(Or(v, r), up)
    case OrRight(l, up) => Plug(Or(l, v), up)
  }

  /** The parts around v are numbered to fit it. */
  predicate Fits(v: Re, ctx: Ctx, b: nat)
    decreases ctx
  {
    match ctx
    case Top => b == 0 && Numbered(v, b)
    case InStar(up) => Fits(Star(v), up, b)
    case InPlus(up) => Fits(Plus(v), up, b)
    case InQuest(up) => Fits(Quest(v), up, b)
    case CatLeft(r, up) => Fits(Cat(v, r), up, b)
    case CatRight(l, up) => b >= Leaves(l) && Fits(Cat(l, v), up, b - Leaves(l))
    case OrLeft(r, up) => Fits(Or(v, r), up, b)
    case OrRight(l, up) => b >= Leaves(l) && Fits(Or(l, v), up, b - Leaves(l))
  }

  lemma {:induction false} FitsNumbered(v: Re, ctx: Ctx, b: nat)
    requires Fits(v, ctx, b)
    ensures Numbered(v, b)
    decreases ctx
  {
    match ctx
    case Top =>
    case InStar(up) => FitsNumbered(Star(v), up, b);
    case InPlus(up) => FitsNumbered(Plus(v), up, b);
    case InQuest(up) => FitsNumbered(Quest(v), up, b);
    case CatLeft(r, up) => FitsNumbered(Cat(v, r), up, b);
    case CatRight(l, up) => FitsNumbered(Cat(l, v), up, b - Leaves(l));
    case OrLeft(r, up) => FitsNumbered(Or(v, r), up, b);
    case OrRight(l, up) => FitsNumbered(Or(l, v), up, b - Leaves(l));
  }

  /** A place seen from a subtree is the place seen from the root. */
  lemma {:induction false} AtRoot(v: Re, ctx: Ctx, b: nat, p: nat)
    requires Fits(v, ctx, b) && b <= p < b + Leaves(v)
    ensures At(Plug(v, ctx), Top, 0, p) == At(v, ctx, b, p)
    decreases ctx
  {
    match ctx
    case Top =>
    case InStar(up) => AtRoot(Star(v), up, b, p);
    case InPlus(up) => AtRoot(Plus(v), up, b, p);
    case InQuest(up) => AtRoot(Quest(v), up, b, p);
    case CatLeft(r, up) => AtRoot(Cat(v, r), up, b, p);
    case CatRight(l, up) => AtRoot(Cat(l, v), up, b - Leaves(l), p);
    case OrLeft(r, up) => AtRoot(Or(v, r), up, b, p);
    case OrRight(l, up) => AtRoot(Or(l, v), up, b - Leaves(l), p);
  }

  /** The leaf at p can take u's first letter and the rest completes the tree. */
  ghost predicate BeginsAt(root: Re, p: nat, u: seq<int>) {
    Begins(At(root, Top, 0, p), u)
  }

  /** What follows v begins at one of its follow leaves, unless it is nothing at all. */
  lemma {:induction false} FollowComplete(v: Re, ctx: Ctx, b: nat, u: seq<int>) returns (p: nat)
    requires Fits(v, ctx, b) && After(v, ctx, u) && !Ends(v, ctx)
    ensures p in Follow(v, ctx) && BeginsAt(Plug(v, ctx), p, u)
    decreases ctx, 0
  {
    FitsNumbered(v, ctx, b);
    match ctx
    case InStar(up) => p := StarComplete(v, up, b, u);
    case InPlus(up) => p := PlusComplete(v, up, b, u);
    case InQuest(up) => p := FollowComplete(Quest(v), up, b, u);
    case CatLeft(r, up) => p := CatComplete(v, r, up, b, u);
    case CatRight(l, up) => p := FollowComplete(Cat(l, v), up, b - Leaves(l), u);
    case OrLeft(r, up) => p := FollowComplete(Or(v, r), up, b, u);
    case OrRight(l, up) => p := FollowComplete(Or(l, v), up, b - Leaves(l), u);
  }

  lemma {:induction false} StarComplete(v: Re, up: Ctx, b: nat, u: seq<int>) returns (p: nat)
    requires Fits(v, InStar(up), b) && After(v, InStar(up), u) && !Ends(v, InStar(up))
    ensures p in Follow(v, InStar(up)) && BeginsAt(Plug(v, InStar(up)), p, u)
    decreases up, 1
  {
    FitsNumbered(v, InStar(up), b);
    var k := AfterElim(v, InStar(up), u);
    if k == 0 {
      p := FollowComplete(Star(v), up, b, u);
    } else {
      p := StarStart(v, up, b, u, k);
      FirstInRange(v, b, p);
      AtRoot(v, InStar(up), b, p);
    }
  }

  lemma {:induction false} PlusComplete(v: Re, up: Ctx, b: nat, u: seq<int>) returns (p: nat)
    requires Fits(v, InPlus(up), b) && After(v, InPlus(up), u) && !Ends(v, InPlus(up))
    ensures p in Follow(v, InPlus(up)) && BeginsAt(Plug(v, InPlus(up)), p, u)
    decreases up, 1
  {
    FitsNumbered(v, InPlus(up), b);
    var k := AfterElim(v, InPlus(up), u);
    if k == 0 {
      p := FollowComplete(Plus(v), up, b, u);
    } else {
      var j := LoopSplit(v, InPlus(up), u, k);
      p := NonemptyStart(v, InPlus(up), b, u, j);
      FirstInRange(v, b, p);
      AtRoot(v, InPlus(up), b, p);
    }
  }

  lemma RightPart(v: Re, r: Re, up: Ctx, u: seq<int>) returns (k: nat)
    requires After(v, CatLeft(r, up), u)
    ensures Starts(r, CatRight(v, up), u, k) && (k == 0 ==> Nullable(r) && After(Cat(v, r), up, u))
  {
    NullableIsEmpty(r);
    k := AfterElim(v, CatLeft(r, up), u);
    PassUp(r, CatRight(v, up), u[k..]);
    assert u[0..] == u && u[..0] == [];
  }

  lemma {:induction false} CatComplete(v: Re, r: Re, up: Ctx, b: nat, u: seq<int>) returns (p: nat)
    requires Fits(v, CatLeft(r, up), b) && After(v, CatLeft(r, up), u) && !Ends(v, CatLeft(r, up))
    ensures p in Follow(v, CatLeft(r, up)) && BeginsAt(Plug(v, CatLeft(r, up)), p, u)
    decreases up, 1
  {
    FitsNumbered(Cat(v, r), up, b);
    var k := RightPart(v, r, up, u);
    hide Lang, After, Starts, At, Begins;
    if k == 0 {
      p := FollowComplete(Cat(v, r), up, b, u);
    } else {
      p := NonemptyStart(r, CatRight(v, up), b + Leaves(v), u, k);
      FirstInRange(r, b + Leaves(v), p);
      AtRoot(r, CatRight(v, up), b + Leaves(v), p);
    }
  }

  /** And a follow leaf only begins what may follow. */
  lemma {:induction false} FollowSound(v: Re, ctx: Ctx, b: nat, p: nat, u: seq<int>)
    requires Fits(v, ctx, b) && p in Follow(v, ctx) && BeginsAt(Plug(v, ctx), p, u)
    ensures After(v, ctx, u)
    decreases ctx
  {
    FitsNumbered(v, ctx, b);
    match ctx
    case InStar(up) =>
      if p in First(v) {
        FirstInRange(v, b, p);
        AtRoot(v, ctx, b, p);
        var k := FirstStarts(Star(v), up, b, p, u);
      } else {
        FollowSound(Star(v), up, b, p, u);
        NothingFirst(Star(v), u);
      }
    case InPlus(up) =>
      if p in First(v) {
        PlusSound(v, up, b, p, u);
      } else {
        FollowSound(Plus(v), up, b, p, u);
        NothingFirst(Star(v), u);
      }
    case InQuest(up) => FollowSound(Quest(v), up, b, p, u);
    case CatLeft(r, up) =>
      FitsNumbered(Cat(v, r), up, b);
      if p in First(r) {
        FirstInRange(r, b + Leaves(v), p);
        AtRoot(r, CatRight(v, up), b + Leaves(v), p);
        var k := FirstStarts(r, CatRight(v, up), b + Leaves(v), p, u);
      } else {
        FollowSound(Cat(v, r), up, b, p, u);
        NullableIsEmpty(r);
        NothingFirst(r, u);
      }
    case CatRight(l, up) => FollowSound(Cat(l, v), up, b - Leaves(l), p, u);
    case OrLeft(r, up) => FollowSound(Or(v, r), up, b, p, u);
    case OrRight(l, up) => FollowSound(Or(l, v), up, b - Leaves(l), p, u);
  }

  lemma NothingFirst(v: Re, u: seq<int>)
    requires Lang(v, [])
    ensures Lang(v, u[..0]) && u[0..] == u
  {
    assert u[..0] == [];
  }

  lemma {:induction false} PlusSound(v: Re, up: Ctx, b: nat, p: nat, u: seq<int>)
    requires Fits(v, InPlus(up), b) && p in First(v) && BeginsAt(Plug(v, InPlus(up)), p, u)
    ensures After(v, InPlus(up), u)
  {
    FitsNumbered(v, InPlus(up), b);
    FirstInRange(v, b, p);
    AtRoot(v, InPlus(up), b, p);
    hide Lang, After, Begins, At, Starts;
    var i := FirstStarts(v, InPlus(up), b, p, u);
    AroundAgain(v, up, u, i);
  }

  lemma AroundAgain(v: Re, up: Ctx, u: seq<int>, i: nat)
    requires Starts(v, InPlus(up), u, i)
    ensures After(v, InPlus(up), u)
  {
    hide Lang, After;
    var k := LoopLonger(v, InPlus(up), u, i);
    AfterIntro(v, InPlus(up), u, k);
  }
}
