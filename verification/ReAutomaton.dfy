/** The automaton record of awk/b.c: the tree walks that fill its rows, its start states, and cgoto, which
    grows the transition table on demand. */
module ReAutomaton {
  import opened ReTree
  import opened ReSets
  import opened ReHat

  const NSTATES: nat := 32

  datatype Row = Row(ltype: Sym, lfollow: seq<nat>)

  /** cgoto's test of one position. */
  predicate RowTakes(k: Sym, c: int) {
    && k != Final
    && ((k.Char? && c == k.c)
        || (k == Dot && c != 0 && c != HAT)
        || (k == All && c != 0)
        || (k == EmptyRe && c != 0)
        || (k.Ccl? && c in k.chars)
        || (k.NCcl? && c !in k.chars && c != 0 && c != HAT))
  }

  /** What cgoto may be asked for. */
  predicate Letter(c: int) {
    c == HAT || 0 <= c < NCHARS
  }

  lemma RowTest(k: Sym, c: int)
    requires Letter(c) && k != EmptyRe
    ensures RowTakes(k, c) <==> Takes(k, c)
  {
  }

  // ------------------------------------------------------------ numbering

  /** The tree with its leaves numbered from b. */
  function Renumber(v: Re, b: nat): (w: Re)
    ensures Leaves(w) == Leaves(v)
  {
    match v
    case Leaf(sym, _) => Leaf(sym, b)
    case Star(r) => Star(Renumber(r, b))
    case Plus(r) => Plus(Renumber(r, b))
    case Quest(r) => Quest(Renumber(r, b))
    case Cat(l, r) => Cat(Renumber(l, b), Renumber(r, b + Leaves(l)))
    case Or(l, r) => Or(Renumber(l, b), Renumber(r, b + Leaves(l)))
  }

  lemma {:induction false} RenumberIsNumbered(v: Re, b: nat)
    ensures Numbered(Renumber(v, b), b) && (NoFinal(v) ==> NoFinal(Renumber(v, b)))
  {
    match v
    case Leaf(_, _) =>
    case Star(r) => RenumberIsNumbered(r, b);
    case Plus(r) => RenumberIsNumbered(r, b);
    case Quest(r) => RenumberIsNumbered(r, b);
    case Cat(l, r) => RenumberIsNumbered(l, b); RenumberIsNumbered(r, b + Leaves(l));
    case Or(l, r) => RenumberIsNumbered(l, b); RenumberIsNumbered(r, b + Leaves(l));
  }

  /** Numbers do not matter to the language. */
  lemma {:induction false} RenumberKeeps(v: Re, b: nat, w: seq<int>)
    ensures Lang(Renumber(v, b), w) <==> Lang(v, w)
    decreases Size(v), |w|
  {
    match v
    case Leaf(_, _) =>
    case Star(r) =>
      forall k | 0 < k <= |w| ensures Lang(Renumber(r, b), w[..k]) <==> Lang(r, w[..k]) { RenumberKeeps(r, b, w[..k]); }
      forall k | 0 < k <= |w| ensures Lang(Renumber(v, b), w[k..]) <==> Lang(v, w[k..]) { RenumberKeeps(v, b, w[k..]); }
    case Plus(r) =>
      forall k | 0 <= k <= |w| ensures Lang(Renumber(r, b), w[..k]) <==> Lang(r, w[..k]) { RenumberKeeps(r, b, w[..k]); }
      forall k | 0 <= k <= |w| ensures Lang(Renumber(Star(r), b), w[k..]) <==> Lang(Star(r), w[k..]) {
        RenumberKeeps(Star(r), b, w[k..]);
      }
    case Quest(r) => RenumberKeeps(r, b, w);
    case Cat(l, r) =>
      forall k | 0 <= k <= |w| ensures Lang(Renumber(l, b), w[..k]) <==> Lang(l, w[..k]) { RenumberKeeps(l, b, w[..k]); }
      forall k | 0 <= k <= |w| ensures Lang(Renumber(r, b + Leaves(l)), w[k..]) <==> Lang(r, w[k..]) {
        RenumberKeeps(r, b + Leaves(l), w[k..]);
      }
    case Or(l, r) =>
      RenumberKeeps(l, b, w);
      RenumberKeeps(r, b + Leaves(l), w);
  }

  // ------------------------------------------------------ set vectors and lists

  /** The positions marked in a set vector. */
  function Members(vec: seq<bool>): set<nat> {
    set i | 0 <= i < |vec| && vec[i]
  }

  function Elems(list: seq<nat>): set<nat> {
    set x | x in list
  }

  predicate Descending(list: seq<nat>) {
    forall i, j :: 0 <= i < j < |list| ==> list[i] > list[j]
  }

  /** Positions a state may hold: within the tree, and never an empty-expression leaf. */
  predicate Sound(r: Re, s: set<nat>) {
    forall p :: p in s ==> p <= Accept(r) && SymAt(r, p) != EmptyRe
  }

  /** A subtree where it stands in the whole tree. */
  predicate Located(r: Re, v: Re, ctx: Ctx, b: nat) {
    Parsed(r) && Fits(v, ctx, b) && Plug(v, ctx) == Root(r) && Numbered(v, b)
  }

  lemma LocatedLeaf(r: Re, v: Re, ctx: Ctx, b: nat)
    requires Located(r, v, ctx, b) && v.Leaf?
    ensures b <= Accept(r) && At(Root(r), Top, 0, b) == Place(v, ctx)
    ensures v.sym == Final ==> b == Accept(r) && Follow(v, ctx) == {}
  {
    AtRoot(v, ctx, b, b);
    PlugLarger(v, ctx, b);
    RootFits(r);
    Shape(r);
    if b < Accept(r) { InnerPlace(r, b); } else { assert Follow(Root(r), Top) == {}; }
  }

  lemma {:induction false} FirstNotEmpty(v: Re, ctx: Ctx, b: nat, p: nat)
    requires Numbered(v, b) && p in First(v)
    ensures b <= p < b + Leaves(v) && At(v, ctx, b, p).leaf.sym != EmptyRe
  {
    FirstInRange(v, b, p);
    match v
    case Leaf(_, _) =>
    case Star(r) => FirstNotEmpty(r, InStar(ctx), b, p);
    case Plus(r) => FirstNotEmpty(r, InPlus(ctx), b, p);
    case Quest(r) => FirstNotEmpty(r, InQuest(ctx), b, p);
    case Cat(l, r) =>
      if p in First(l) { FirstNotEmpty(l, CatLeft(r, ctx), b, p); } else {
        FirstInRange(r, b + Leaves(l), p);
        FirstNotEmpty(r, CatRight(l, ctx), b + Leaves(l), p);
      }
    case Or(l, r) =>
      if p in First(l) { FirstNotEmpty(l, OrLeft(r, ctx), b, p); } else {
        FirstInRange(r, b + Leaves(l), p);
        FirstNotEmpty(r, OrRight(l, ctx), b + Leaves(l), p);
      }
  }

  lemma FirstSound(r: Re, v: Re, ctx: Ctx, b: nat)
    requires Located(r, v, ctx, b)
    ensures Sound(r, First(v))
  {
    PlugLarger(v, ctx, b);
    RootFits(r);
    forall p | p in First(v) ensures p <= Accept(r) && SymAt(r, p) != EmptyRe {
      FirstNotEmpty(v, ctx, b, p);
      AtRoot(v, ctx, b, p);
    }
  }

  /** Follow sets hold no empty-expression leaf either. */
  lemma {:induction false} FollowIsSound(r: Re, v: Re, ctx: Ctx, b: nat)
    requires Located(r, v, ctx, b)
    ensures Sound(r, Follow(v, ctx))
    decreases ctx
  {
    hide Located, SymAt;
    if ctx != Top {
      Above(r, v, ctx, b);
      var b' := if ctx.CatRight? || ctx.OrRight? then b - Leaves(ctx.left) else b;
      FollowIsSound(r, Parent(v, ctx), ctx.up, b');
      if ctx.CatLeft? {
        FirstSound(r, ctx.right, CatRight(v, ctx.up), b + Leaves(v));
      } else if ctx.InStar? || ctx.InPlus? {
        FirstSound(r, v, ctx, b);
      }
    }
  }

  lemma FollowAtSound(r: Re, p: nat)
    requires Parsed(r) && p <= Accept(r)
    ensures Sound(r, FollowAt(r, p))
  {
    Shape(r);
    RootFits(r);
    var pl := At(Root(r), Top, 0, p);
    if p < Accept(r) {
      InnerPlace(r, p);
      FitsNumbered(pl.leaf, pl.ctx, p);
      FollowIsSound(r, pl.leaf, pl.ctx, p);
    } else {
      assert Follow(Root(r), Top) == {};
    }
  }

  /** One more position in the list, one more follow set in the step. */
  lemma StepGrows(r: Re, list: seq<nat>, i: nat, c: int)
    requires i < |list|
    ensures var more := if Takes(SymAt(r, list[i]), c) then FollowAt(r, list[i]) else {};
            Step(r, Elems(list[..i + 1]), c) == Step(r, Elems(list[..i]), c) + more
  {
    hide SymAt, FollowAt, Takes;
    assert list[..i + 1] == list[..i] + [list[i]];
    assert Elems(list[..i + 1]) == Elems(list[..i]) + {list[i]};
  }

  /** The file's working storage: setvec, setcnt and poscnt. */
  class Collector {
    var setvec: seq<bool>
    var setcnt: nat
    var poscnt: nat

    ghost predicate Holds(r: Re, s: set<nat>)
      reads `setvec, `setcnt
    {
      |setvec| == Accept(r) + 1 && Members(setvec) == s && setcnt == |s| && Sound(r, s)
    }

    constructor ()
      ensures poscnt == 0
    {
      setvec, setcnt, poscnt := [], 0, 0;
    }

    /** penter: number the leaves from left to right. */
    method Penter(v: Re) returns (w: Re)
      modifies `poscnt
      ensures w == Renumber(v, old(poscnt)) && poscnt == old(poscnt) + Leaves(v)
      decreases v
    {
      match v
      case Leaf(sym, _) =>
        w := Leaf(sym, poscnt);
        poscnt := poscnt + 1;
      case Star(r) =>
        w := Penter(r);
        w := Star(w);
      case Plus(r) =>
        w := Penter(r);
        w := Plus(w);
      case Quest(r) =>
        w := Penter(r);
        w := Quest(w);
      case Cat(l, r) =>
        var wl := Penter(l);
        var wr := Penter(r);
        w := Cat(wl, wr);
      case Or(l, r) =>
        var wl := Penter(l);
        var wr := Penter(r);
        w := Or(wl, wr);
    }

    /** Empty the set. */
    method Reset(accept: nat, ghost r: Re)
      requires accept == Accept(r)
      modifies `setvec, `setcnt
      ensures Holds(r, {})
    {
      setvec := seq(accept + 1, _ => false);
      setcnt := 0;
    }

    /** Mark one position. */
    method Mark(p: nat, ghost r: Re, ghost s: set<nat>)
      requires Holds(r, s) && p <= Accept(r) && SymAt(r, p) != EmptyRe
      modifies `setvec, `setcnt
      ensures Holds(r, s + {p})
    {
      hide SymAt;
      if !setvec[p] {
        setvec := setvec[p := true];
        setcnt := setcnt + 1;
        assert Members(setvec) == s + {p};
      } else {
        assert s + {p} == s;
      }
    }

    method FirstLeaf(v: Re, ghost r: Re, ghost ctx: Ctx, ghost b: nat, ghost s: set<nat>) returns (solid: bool)
      requires Located(r, v, ctx, b) && Holds(r, s) && v.Leaf?
      modifies `setvec, `setcnt
      ensures Holds(r, s + ReTree.First(v)) && solid == !Nullable(v)
    {
      hide SymAt, Located;
      LeafFacts(r, v, ctx, b);
      if v.sym == EmptyRe {
        setvec := setvec[v.idx := false];
        assert setvec == old(setvec);
        assert s + ReTree.First(v) == s;
        return false;
      }
      Mark(v.idx, r, s);
      solid := v.sym != Ccl([]);
    }

    /** first: collect the initially active leaves of v; the answer says v cannot match the empty string. */
    method First(v: Re, ghost r: Re, ghost ctx: Ctx, ghost b: nat, ghost s: set<nat>) returns (solid: bool)
      requires Located(r, v, ctx, b) && Holds(r, s)
      modifies `setvec, `setcnt
      ensures Holds(r, s + ReTree.First(v)) && solid == !Nullable(v)
      decreases v
    {
      hide SymAt, Located, Collector.Holds;
      Children(r, v, ctx, b);
      match v
      case Leaf(_, _) =>
        solid := FirstLeaf(v, r, ctx, b, s);
      case Star(q) =>
        solid := First(q, r, InStar(ctx), b, s);
        solid := false;
      case Plus(q) =>
        solid := First(q, r, InPlus(ctx), b, s);
      case Quest(q) =>
        solid := First(q, r, InQuest(ctx), b, s);
        solid := false;
      case Cat(left, right) =>
        solid := First(left, r, CatLeft(right, ctx), b, s);
        if !solid {
          ThreeSets(s, ReTree.First(left), ReTree.First(right));
          solid := First(right, r, CatRight(left, ctx), b + Leaves(left), s + ReTree.First(left));
        }
      case Or(left, right) =>
        ThreeSets(s, ReTree.First(left), ReTree.First(right));
        var solidRight := First(right, r, OrRight(left, ctx), b + Leaves(left), s);
        solid := First(left, r, OrLeft(right, ctx), b, s + ReTree.First(right));
        solid := solid && solidRight;
    }

    /** follow: collect the leaves that can come after v, climbing the parent links. */
    method Follow(v: Re, ghost r: Re, ctx: Ctx, ghost b: nat, ghost s: set<nat>)
      requires Located(r, v, ctx, b) && Holds(r, s) && ((v.Leaf? && v.sym == Final) || !Ends(v, ctx))
      modifies `setvec, `setcnt
      ensures Holds(r, s + ReTree.Follow(v, ctx))
      decreases ctx, 1
    {
      hide SymAt, Located, Collector.Holds;
      if v.Leaf? && v.sym == Final {
        FinalFollow(r, v, ctx, b);
        assert s + ReTree.Follow(v, ctx) == s;
        return;
      }
      Above(r, v, ctx, b);
      var p := Parent(v, ctx);
      match ctx
      case InStar(up) =>
        FollowLoop(v, r, ctx, b, s);
      case InPlus(up) =>
        FollowLoop(v, r, ctx, b, s);
      case InQuest(up) => Follow(p, r, up, b, s);
      case OrLeft(_, up) => Follow(p, r, up, b, s);
      case OrRight(left, up) => Follow(p, r, up, b - Leaves(left), s);
      case CatLeft(right, up) =>
        var solid := First(right, r, CatRight(v, up), b + Leaves(v), s);
        if !solid {
          ThreeSets(s, ReTree.First(right), ReTree.Follow(p, up));
          Follow(p, r, up, b, s + ReTree.First(right));
        }
      case CatRight(left, up) => Follow(p, r, up, b - Leaves(left), s);
    }

    method FollowLoop(v: Re, ghost r: Re, ctx: Ctx, ghost b: nat, ghost s: set<nat>)
      requires (ctx.InStar? || ctx.InPlus?) && Located(r, v, ctx, b) && Holds(r, s) && !Ends(v, ctx)
      modifies `setvec, `setcnt
      ensures Holds(r, s + ReTree.Follow(v, ctx))
      decreases ctx, 0
    {
      hide SymAt, Located, Collector.Holds;
      Above(r, v, ctx, b);
      var p := Parent(v, ctx);
      ThreeSets(s, ReTree.First(v), ReTree.Follow(p, ctx.up));
      var solid := First(v, r, ctx, b, s);
      Follow(p, r, ctx.up, b, s + ReTree.First(v));
    }

    /** The marked positions as a list, highest first. */
    method Listed(ghost r: Re, ghost s: set<nat>) returns (list: seq<nat>)
      requires Holds(r, s)
      ensures Elems(list) == s && Descending(list) && |list| == setcnt
    {
      list := [];
      var i := |setvec|;
      while i > 0
        invariant 0 <= i <= |setvec| && Descending(list) && forall k :: 0 <= k < |list| ==> list[k] >= i
        invariant forall x :: x in list <==> i <= x < |setvec| && setvec[x]
      {
        i := i - 1;
        if setvec[i] {
          list := list + [i];
        }
      }
      assert Elems(list) == s;
      DistinctCount(list);
    }
  }

  lemma {:induction false} DistinctCount(list: seq<nat>)
    requires Descending(list)
    ensures |Elems(list)| == |list|
  {
    if list != [] {
      var init := list[..|list| - 1];
      DistinctCount(init);
      assert Elems(list) == Elems(init) + {list[|list| - 1]};
    }
  }

  lemma ThreeSets(s: set<nat>, x: set<nat>, y: set<nat>)
    ensures s + (x + y) == (s + x) + y == (s + y) + x
  {
  }

  lemma FinalFollow(r: Re, v: Re, ctx: Ctx, b: nat)
    requires Located(r, v, ctx, b) && v.Leaf? && v.sym == Final
    ensures Follow(v, ctx) == {}
  {
    LocatedLeaf(r, v, ctx, b);
  }

  /** The subtrees of a located tree are located. */
  lemma Children(r: Re, v: Re, ctx: Ctx, b: nat)
    requires Located(r, v, ctx, b)
    ensures match v
            case Leaf(_, _) => true
            case Star(q) => Located(r, q, InStar(ctx), b)
            case Plus(q) => Located(r, q, InPlus(ctx), b)
            case Quest(q) => Located(r, q, InQuest(ctx), b)
            case Cat(x, y) => Located(r, x, CatLeft(y, ctx), b) && Located(r, y, CatRight(x, ctx), b + Leaves(x))
            case Or(x, y) => Located(r, x, OrLeft(y, ctx), b) && Located(r, y, OrRight(x, ctx), b + Leaves(x))
  {
  }

  /** So is the parent. */
  lemma Above(r: Re, v: Re, ctx: Ctx, b: nat)
    requires Located(r, v, ctx, b) && ctx != Top
    ensures var b' := if ctx.CatRight? || ctx.OrRight? then b - Leaves(ctx.left) else b;
            b' >= 0 && Located(r, Parent(v, ctx), ctx.up, b')
    ensures ctx.CatLeft? ==> Located(r, ctx.right, CatRight(v, ctx.up), b + Leaves(v))
  {
    var b' := if ctx.CatRight? || ctx.OrRight? then b - Leaves(ctx.left) else b;
    FitsNumbered(Parent(v, ctx), ctx.up, b');
  }

  lemma LeafFacts(r: Re, v: Re, ctx: Ctx, b: nat)
    requires Located(r, v, ctx, b) && v.Leaf?
    ensures v.idx == b <= Accept(r) && SymAt(r, b) == v.sym
  {
    LocatedLeaf(r, v, ctx, b);
  }

  // --------------------------------------------------------------- the rows

  /** Row p tells the leaf's kind and, highest first, what can follow it. */
  predicate RowRight(r: Re, row: Row, p: nat) {
    row.ltype == SymAt(r, p) && Elems(row.lfollow) == FollowAt(r, p) && Descending(row.lfollow)
  }

  predicate RowsRight(r: Re, rows: seq<Row>, lo: nat, hi: nat) {
    forall p :: lo <= p < hi && p < |rows| ==> RowRight(r, rows[p], p)
  }

  /** A state's list is ordered, sound, and flagged final just when it holds FINAL. */
  ghost predicate StateOk(r: Re, list: seq<nat>, final: bool) {
    Descending(list) && Sound(r, Elems(list)) && (final <==> Accept(r) in list)
  }

  /** The size of the transition table, NSTATES rows of NCHARS entries. */
  const TABLE: nat := 8288

  /** Where gototab[s][c] lies; 259 is NCHARS. */
  function Cell(s: nat, c: nat): nat {
    259 * s + c
  }

  /** Rows do not overlap, and HAT in row 2 is the stray byte in row 3. */
  lemma Cells(s: nat, c: nat, t: nat, d: nat)
    requires c < NCHARS && d < NCHARS
    ensures TABLE == NSTATES * NCHARS && (s < NSTATES ==> Cell(s, c) < TABLE)
    ensures Cell(s, c) == Cell(t, d) <==> s == t && c == d
    ensures Cell(2, HAT) == Cell(3, STRAY)
  {
  }

  /** The entry that the store for HAT leaves behind. */
  predicate Stray(r: Re, s: nat, c: nat, v: int) {
    s == 3 && c == STRAY && v == 3 && NewHat(r)
  }

  /** A cached entry leads to the state whose positions are the step, but for the stray one. */
  predicate EntryOk(r: Re, posns: seq<seq<nat>>, s: nat, c: nat, v: int)
    requires s < |posns|
  {
    v != 0 ==> 1 <= v < |posns| && (Elems(posns[v]) == Step(r, Elems(posns[s]), c) || Stray(r, s, c, v))
  }

  ghost predicate Cached(r: Re, posns: seq<seq<nat>>, tab: seq<int>, s: nat)
    requires s < |posns|
  {
    |tab| == TABLE && s < NSTATES
    && forall c: nat {:trigger Cell(s, c)} :: c < NCHARS ==> Cell(s, c) < TABLE && EntryOk(r, posns, s, c, tab[Cell(s, c)])
  }

  /** No two states have the same positions. */
  ghost predicate Apart(posns: seq<seq<nat>>) {
    forall i, j :: 1 <= i < j < |posns| ==> posns[i] != posns[j]
  }

  /** A table that caches nothing. */
  function Zeros(): (tab: seq<int>)
    ensures |tab| == TABLE
  {
    seq(TABLE, _ => 0)
  }

  /** The first n entries of row s emptied. */
  function Cleared(tab: seq<int>, s: nat, n: nat): (now: seq<int>)
    ensures |now| == |tab|
  {
    seq(|tab|, k requires 0 <= k < |tab| => if Cell(s, 0) <= k < Cell(s, 0) + n then 0 else tab[k])
  }

  lemma ClearedCell(tab: seq<int>, s: nat, t: nat, d: nat)
    requires |tab| == TABLE && t < NSTATES && d < NCHARS
    ensures Cell(t, d) < TABLE && Cleared(tab, s, NCHARS)[Cell(t, d)] == if t == s then 0 else tab[Cell(t, d)]
  {
    assert Cell(s, 0) <= Cell(t, d) < Cell(s, 0) + NCHARS <==> t == s;
  }

  lemma ClearedNext(tab: seq<int>, s: nat, n: nat)
    requires |tab| == TABLE && s < NSTATES && n < NCHARS
    ensures Cell(s, n) < TABLE && Cleared(tab, s, n)[Cell(s, n) := 0] == Cleared(tab, s, n + 1) && Cleared(tab, s, 0) == tab
  {
    assert Cell(s, n) == Cell(s, 0) + n;
  }

  lemma ClearedZeros(s: nat)
    ensures Cleared(Zeros(), s, NCHARS) == Zeros()
  {
  }

  lemma ClearedCached(r: Re, posns: seq<seq<nat>>, tab: seq<int>, s: nat, t: nat)
    requires t < |posns| && t < NSTATES && |tab| == TABLE && (t != s ==> Cached(r, posns, tab, t))
    ensures Cached(r, posns, Cleared(tab, s, NCHARS), t)
  {
    hide Step, Cell, Cleared, Stray;
    forall d: nat | d < NCHARS
      ensures Cell(t, d) < TABLE && EntryOk(r, posns, t, d, Cleared(tab, s, NCHARS)[Cell(t, d)])
    {
      ClearedCell(tab, s, t, d);
      assert t != s ==> EntryOk(r, posns, t, d, tab[Cell(t, d)]);
    }
  }

  /** After makeinit's one store only the stray byte's entry may be set. */
  lemma StrayCached(r: Re, posns: seq<seq<nat>>, v: int, t: nat)
    requires t < |posns| && t < NSTATES && (t == 3 ==> v == 3 && NewHat(r))
    ensures Cell(3, STRAY) < TABLE && Cached(r, posns, Zeros()[Cell(3, STRAY) := v], t)
  {
    hide Step, Cell, NewHat;
    Cells(3, STRAY, 3, STRAY);
    var tab := Zeros()[Cell(3, STRAY) := v];
    forall d: nat | d < NCHARS ensures Cell(t, d) < TABLE && EntryOk(r, posns, t, d, tab[Cell(t, d)]) {
      Cells(3, STRAY, t, d);
      Cells(t, d, t, d);
    }
  }

  /** A store into one cell, seen from row t. */
  lemma StoreCached(r: Re, posns: seq<seq<nat>>, tab: seq<int>, s: nat, c: nat, v: int, t: nat)
    requires t < |posns| && Cached(r, posns, tab, t) && s < NSTATES && c < NCHARS
    requires t == s ==> EntryOk(r, posns, s, c, v)
    ensures Cell(s, c) < TABLE && Cached(r, posns, tab[Cell(s, c) := v], t)
  {
    hide Step, EntryOk, Cell;
    Cells(s, c, s, c);
    forall d: nat | d < NCHARS
      ensures Cell(t, d) < TABLE && EntryOk(r, posns, t, d, tab[Cell(s, c) := v][Cell(t, d)])
    {
      Cells(s, c, t, d);
      assert EntryOk(r, posns, t, d, tab[Cell(t, d)]);
    }
  }

  /** A new state changes nothing for the rows of the others. */
  lemma MoreStates(r: Re, posns: seq<seq<nat>>, list: seq<nat>, tab: seq<int>, s: nat)
    requires s < |posns| && Cached(r, posns, tab, s)
    ensures Cached(r, posns + [list], tab, s)
  {
    hide Step, Cell, Stray;
    forall c: nat | c < NCHARS ensures Cell(s, c) < TABLE && EntryOk(r, posns + [list], s, c, tab[Cell(s, c)]) {
      assert EntryOk(r, posns, s, c, tab[Cell(s, c)]);
    }
  }

  lemma NoElems(list: seq<nat>)
    ensures Elems(list) == {} <==> list == []
  {
    if list != [] { assert list[0] in Elems(list); }
  }

  /** Lists in descending order are determined by what is in them. */
  lemma {:induction false} SameList(a: seq<nat>, b: seq<nat>)
    requires Descending(a) && Descending(b) && Elems(a) == Elems(b)
    ensures a == b
    decreases |a|
  {
    NoElems(a);
    NoElems(b);
    if a != [] {
      assert a[0] in Elems(b);
      assert b[0] in Elems(a);
      assert a[0] == b[0];
      assert a == [a[0]] + a[1..] && b == [b[0]] + b[1..];
      assert Elems(a[1..]) == Elems(a) - {a[0]};
      assert Elems(b[1..]) == Elems(b) - {b[0]};
      SameList(a[1..], b[1..]);
    }
  }

  class Fa {
    var accept: nat
    var re: seq<Row>
    var posns: seq<seq<nat>>
    var gototab: seq<int>
    var out: seq<bool>
    var curstat: nat
    var initstat: nat
    var anchor: bool
    var full: bool
    const work: Collector
    ghost var r: Re

    /** mkdfa: any letters in front, FINAL behind, rows filled and the start states made. */
    constructor Mkdfa(s: Re, anchor: bool, work: Collector)
      requires NoFinal(s)
      modifies work
      ensures this.work == work && this.anchor == anchor && r == Renumber(s, 1) && !full
      ensures Ready(anchor) && (EntriesRight() <==> Harmless(r, anchor))
    {
      hide Rows, Valid, State, Cell, Start, Hatted, NewHat, Harmless, Zeros;
      this.work, this.anchor, r := work, anchor, Renumber(s, 1);
      posns, gototab, out, curstat, initstat, full := [], Zeros(), [], 0, 0, false;
      accept, re := 0, [];
      new;
      BuildRows(s);
      Makeinit(anchor);
    }

    method BuildRows(s: Re)
      requires NoFinal(s) && r == Renumber(s, 1)
      modifies `accept, `re, work
      ensures Rows()
    {
      hide Located, RowRight, SymAt, FollowAt;
      var p1 := Cat(Cat(Star(Leaf(All, 0)), s), Leaf(Final, 0));
      work.poscnt := 0;
      var w := work.Penter(p1);
      RootIsRenumbered(s);
      accept := work.poscnt - 1;
      re := seq(accept + 1, _ => Row(EmptyRe, []));
      Cfoll(w, Top, 0);
    }

    /** The start states as a matcher finds them, and what the store for HAT has left. */
    ghost predicate Ready(anchored: bool)
      reads `r, `re, `accept, `posns, `gototab, `out, `curstat, `initstat
    {
      && Valid() && 2 <= initstat <= curstat
      && State(2) == (if anchored then Start(r) - {0} else Start(r)) && State(initstat) == HatState(r, anchored)
      && |gototab| == TABLE
      && if NewHat(r) then initstat == 3 && Cell(3, STRAY) < TABLE && gototab[Cell(3, STRAY)] == 3 else initstat == 2
    }

    /** All cached entries lead where the step leads. */
    ghost predicate EntriesRight()
      requires |gototab| == TABLE && |posns| == curstat + 1
      reads `r, `posns, `gototab, `curstat
    {
      forall s: nat, c: nat {:trigger Cell(s, c)} :: 1 <= s <= curstat && c < NCHARS && Cell(s, c) < TABLE && gototab[Cell(s, c)] != 0 ==>
        0 <= gototab[Cell(s, c)] <= curstat && State(gototab[Cell(s, c)]) == Step(r, State(s), c)
    }

    /** At any time all cached entries are right if and only if the hat made no new state, or one that the stray
        byte leads back to. */
    lemma EntriesRightIff(anchored: bool)
      requires Ready(anchored)
      ensures EntriesRight() <==> Harmless(r, anchored)
    {
      hide Step, StateOk, RowsRight, Rows, Cell, HatState, NewHat;
      if Harmless(r, anchored) {
        forall s: nat, c: nat | 1 <= s <= curstat && c < NCHARS && Cell(s, c) < TABLE && gototab[Cell(s, c)] != 0
          ensures 0 <= gototab[Cell(s, c)] <= curstat && State(gototab[Cell(s, c)]) == Step(r, State(s), c)
        {
          StateRow(s);
          assert EntryOk(r, posns, s, c, gototab[Cell(s, c)]);
        }
      }
      if EntriesRight() && NewHat(r) {
        assert State(gototab[Cell(3, STRAY)]) == Step(r, State(3), STRAY);
      }
    }

    lemma StateRow(s: nat)
      requires States() && 1 <= s <= curstat
      ensures Cached(r, posns, gototab, s) && StateOk(r, posns[s], out[s])
    {
      assert StateOk(r, posns[s], out[s]);
    }

    /** The first half of makeinit: state 2 from the follow set of position 0. */
    method BeginStates()
      requires Rows() && gototab == Zeros()
      modifies `posns, `gototab, `out, `curstat
      ensures Valid() && curstat == 2 && State(2) == Start(r) && gototab == Zeros()
    {
      hide SymAt, FollowAt, Step, Parsed, First, Start;
      StartRow();
      var start := re[0].lfollow;
      curstat := 2;
      posns := [[], [], start];
      out := [false, false, start[0] == accept];
      ClearRow(2);
      ClearedZeros(2);
      FreshStates();
    }

    /** The state one hat later, stored where HAT's entry of row 2 lies. */
    method HatLater()
      requires Valid() && curstat == 2 && State(2) == Start(r) && gototab == Zeros()
      modifies `posns, `gototab, `out, `curstat, `initstat, `full, work
      ensures Valid() && full == old(full) && curstat == initstat == (if NewHat(r) then 3 else 2)
      ensures State(2) == Start(r) && State(initstat) == Hatted(r)
      ensures 0 in State(2) && 0 in State(initstat)
      ensures Cell(3, STRAY) < TABLE && gototab == Zeros()[Cell(3, STRAY) := initstat]
    {
      hide Step, Start, States, Rows, Cleared, Zeros, NewHat;
      StatesShape();
      initstat := Cgoto(2, HAT);
      StatesShape();
      ClearedZeros(3);
      Cells(3, STRAY, 3, STRAY);
      assert posns[2] == posns[..3][2];
      NewStart();
    }

    lemma StatesShape()
      requires States()
      ensures |posns| == |out| == curstat + 1 && |gototab| == TABLE && curstat < NSTATES
    {
    }

    /** makeinit: state 2 from the follow set of position 0, and the start state one hat later. An
        anchored automaton leaves position 0 out of both. */
    method Makeinit(anchored: bool)
      requires Rows() && gototab == Zeros()
      modifies `posns, `gototab, `out, `curstat, `initstat, `full, work
      ensures Ready(anchored) && !full
      ensures EntriesRight() <==> Harmless(r, anchored)
    {
      hide Start, Hatted, States, Rows, Zeros, NewHat, Cell, Step;
      full := false;
      BeginStates();
      HatLater();
      StatesShape();
      if anchored {
        Anchor();
      }
      EntriesRightIff(anchored);
    }

    /** Where the hat leads: back to state 2 if it adds nothing, to a state of its own otherwise. */
    lemma NewStart()
      requires Rows() && States() && 1 <= initstat <= curstat && 2 <= curstat <= 3 && State(2) == Start(r) && State(initstat) == Hatted(r)
      requires curstat == 3 ==> initstat == 3
      ensures if NewHat(r) then initstat == curstat == 3 else initstat == curstat == 2
      ensures 0 in State(2) && 0 in State(initstat)
    {
      hide Step, Start, Hatted, Cached;
      HattedParts(r);
      StartIsFirst(r);
      assert Elems(posns[1]) == {};
      if curstat == 3 && State(2) == State(3) {
        assert StateOk(r, posns[2], out[2]) && StateOk(r, posns[3], out[3]);
        SameList(posns[2], posns[3]);
      }
    }

    ghost predicate Rows()
      reads `r, `re, `accept
    {
      Parsed(r) && accept == Accept(r) && |re| == accept + 1 && RowsRight(r, re, 0, accept + 1)
    }

    ghost predicate States()
      reads `r, `posns, `gototab, `out, `curstat
    {
      && 1 <= curstat < NSTATES && |posns| == |out| == curstat + 1 && |gototab| == TABLE && posns[1] == [] && Apart(posns)
      && (forall s {:trigger posns[s]} :: 1 <= s <= curstat ==> StateOk(r, posns[s], out[s]))
      && forall s {:trigger posns[s]} :: 1 <= s <= curstat ==> Cached(r, posns, gototab, s)
    }

    /** What holds between calls: the rows are the follow sets, and the table caches only true steps. */
    ghost predicate Valid()
      reads `r, `re, `accept, `posns, `gototab, `out, `curstat
    {
      Rows() && States()
    }

    /** The position set of a state. */
    ghost function State(s: nat): set<nat>
      requires s < |posns|
      reads `posns
    {
      Elems(posns[s])
    }

    /** The step of a position list, collected into the set vector. */
    method Union(list: seq<nat>, c: int)
      requires Rows() && Letter(c) && Sound(r, Elems(list))
      modifies work
      ensures work.Holds(r, Step(r, Elems(list), c))
    {
      hide SymAt, FollowAt, Takes, RowTakes, Parsed, Collector.Holds, Step;
      work.Reset(accept, r);
      StepOfNone(r, c);
      var i := 0;
      while i < |list|
        invariant i <= |list| && work.Holds(r, Step(r, Elems(list[..i]), c))
      {
        var p := list[i];
        assert p in Elems(list) && RowRight(r, re[p], p);
        RowTest(re[p].ltype, c);
        StepGrows(r, list, i, c);
        if RowTakes(re[p].ltype, c) {
          FollowAtSound(r, p);
          MarkAll(re[p].lfollow, Step(r, Elems(list[..i]), c));
        } else {
          NothingMore(Step(r, Elems(list[..i]), c));
        }
        i := i + 1;
      }
      assert list[..i] == list;
    }

    method MarkAll(list: seq<nat>, ghost s: set<nat>)
      requires work.Holds(r, s) && Sound(r, Elems(list))
      modifies work
      ensures work.Holds(r, s + Elems(list))
    {
      hide SymAt, Collector.Holds;
      var j := 0;
      NothingMore(s);
      assert Elems(list[..0]) == {};
      while j < |list|
        invariant j <= |list| && work.Holds(r, s + Elems(list[..j]))
      {
        assert list[j] in Elems(list);
        work.Mark(list[j], r, s + Elems(list[..j]));
        OneMore(s, list, j);
        j := j + 1;
      }
      assert list[..j] == list;
    }

    /** The state with this list, or 0 if there is none. */
    method FindState(list: seq<nat>) returns (i: nat)
      requires |posns| == curstat + 1
      ensures i == 0 || (i <= curstat && posns[i] == list)
      ensures i == 0 ==> list !in posns[1..]
    {
      i := 1;
      while i <= curstat
        invariant 1 <= i <= curstat + 1 && list !in posns[1..i]
      {
        if posns[i] == list {
          return;
        }
        assert posns[1..i + 1] == posns[1..i] + [posns[i]];
        i := i + 1;
      }
      assert posns[1..i] == posns[1..];
      i := 0;
    }

    /** Empty a row. */
    method ClearRow(s: nat)
      requires s < NSTATES && |gototab| == TABLE
      modifies `gototab
      ensures gototab == Cleared(old(gototab), s, NCHARS)
    {
      hide Cell, Cleared;
      ghost var was := gototab;
      var i: nat := 0;
      ClearedNext(was, s, 0);
      while i < NCHARS
        invariant i <= NCHARS && gototab == Cleared(was, s, i)
      {
        ClearedNext(was, s, i);
        gototab := gototab[Cell(s, i) := 0];
        i := i + 1;
      }
    }

    /** Remember a transition. The store for HAT ends up in row 3. */
    method Cache(s: nat, c: int, ns: nat)
      requires States() && Letter(c) && 1 <= s <= curstat && 1 <= ns <= curstat
      requires State(ns) == Step(r, State(s), c)
      requires c == HAT ==> s == 2 && State(2) == Start(r) && (curstat == 2 || (curstat == 3 && ns == 3))
      modifies `gototab
      ensures States() && Cell(s, c) < TABLE && gototab == old(gototab)[Cell(s, c) := ns]
    {
      hide Step, StateOk, Cell, Start;
      ghost var row, col := if c == HAT then 3 else s, if c == HAT then STRAY else c;
      Cells(row, col, row, col);
      if c == HAT && curstat == 3 { StrayEntry(); }
      ghost var now := gototab[Cell(s, c) := ns];
      forall t | 1 <= t <= curstat ensures Cached(r, posns, now, t) {
        StateRow(t);
        StoreCached(r, posns, gototab, row, col, ns, t);
      }
      gototab := gototab[Cell(s, c) := ns];
    }

    lemma StrayEntry()
      requires States() && curstat == 3 && State(2) == Start(r) && State(3) == Step(r, State(2), HAT)
      ensures EntryOk(r, posns, 3, STRAY, 3)
    {
      hide Step, Cached, Start;
      assert StateOk(r, posns[2], out[2]) && StateOk(r, posns[3], out[3]);
      if State(2) == State(3) { SameList(posns[2], posns[3]); }
    }

    /** Append a state with an empty row. */
    method AddState(list: seq<nat>, final: bool)
      requires States() && curstat < NSTATES - 1 && StateOk(r, list, final) && list !in posns[1..]
      modifies `posns, `gototab, `out, `curstat
      ensures States() && curstat == old(curstat) + 1 && posns == old(posns) + [list] && out == old(out) + [final]
      ensures gototab == Cleared(old(gototab), curstat, NCHARS)
    {
      hide Step, StateOk, Cached, Cleared, Apart;
      ghost var was, n := gototab, curstat;
      ghost var more, cleared := posns + [list], Cleared(gototab, curstat + 1, NCHARS);
      forall s | 1 <= s <= n + 1 ensures Cached(r, more, cleared, s) {
        if s <= n {
          StateRow(s);
          MoreStates(r, posns, list, was, s);
        }
        ClearedCached(r, more, was, n + 1, s);
      }
      forall s | 1 <= s <= n ensures StateOk(r, more[s], (out + [final])[s]) { StateRow(s); }
      OneMoreApart(posns, list);
      curstat := curstat + 1;
      ClearRow(curstat);
      posns := posns + [list];
      out := out + [final];
    }

    lemma OneMoreApart(posns: seq<seq<nat>>, list: seq<nat>)
      requires posns != [] && Apart(posns) && list !in posns[1..]
      ensures Apart(posns + [list])
    {
      forall i, j | 1 <= i < j < |posns| + 1 ensures (posns + [list])[i] != (posns + [list])[j] {
        if j == |posns| { assert posns[i] == posns[1..][i - 1]; }
      }
    }

    /** cgoto: the state reached from s on c, found among the known ones or added. With all NSTATES in use
        it gives up with 0; there the code starts its table over. */
    method Cgoto(s: nat, c: int) returns (ns: nat)
      requires Valid() && 1 <= s <= curstat && Letter(c)
      requires c == HAT ==> s == 2 == curstat && State(2) == Start(r)
      modifies `posns, `gototab, `out, `curstat, `full, work
      ensures Valid() && old(curstat) <= curstat <= old(curstat) + 1 && posns[..old(curstat) + 1] == old(posns)
      ensures out[..old(curstat) + 1] == old(out)
      ensures ns == 0 ==> old(curstat) == NSTATES - 1
      ensures if ns == 0 then full else full == old(full) && ns <= curstat && State(ns) == Step(r, old(State(s)), c)
      ensures Cell(s, c) < TABLE
      ensures gototab == if ns == 0 then old(gototab)
                         else (if curstat > old(curstat) then Cleared(old(gototab), curstat, NCHARS) else old(gototab))[Cell(s, c) := ns]
      ensures ns != 0 && curstat > old(curstat) ==> ns == curstat
    {
      hide Step, StateOk, Cached, RowsRight, Collector.Holds, SymAt, FollowAt, Cell, Cleared, Apart, Start;
      KnownState(s);
      LetterCell(s, c);
      ghost var target := Step(r, State(s), c);
      Union(posns[s], c);
      var list := work.Listed(r, target);
      var i := FindState(list);
      if i != 0 {
        Cache(s, c, i);
        return i;
      }
      if curstat >= NSTATES - 1 {
        full := true;
        return 0;
      }
      var final := IsMarked(target);
      NewState(target, list, final);
      AddState(list, final);
      Cache(s, c, curstat);
      ns := curstat;
    }

    lemma LetterCell(s: nat, c: int)
      requires Letter(c) && 1 <= s < NSTATES && (c == HAT ==> s == 2)
      ensures Cell(s, c) < TABLE
    {
    }

    method IsMarked(ghost s: set<nat>) returns (b: bool)
      requires work.Holds(r, s) && accept == Accept(r)
      ensures b == (Accept(r) in s)
    {
      hide SymAt;
      b := work.setvec[accept];
    }

    lemma KnownState(s: nat)
      requires Valid() && 1 <= s <= curstat
      ensures Sound(r, State(s)) && Descending(posns[s]) && (out[s] <==> Accept(r) in State(s))
    {
      assert StateOk(r, posns[s], out[s]);
    }

    lemma NewState(s: set<nat>, list: seq<nat>, final: bool)
      requires work.Holds(r, s) && Elems(list) == s && Descending(list) && final == (Accept(r) in s)
      ensures StateOk(r, list, final)
    {
    }

    lemma StartRow()
      requires Rows()
      ensures var start := re[0].lfollow;
              start != [] && Elems(start) == Start(r) && StateOk(r, start, start[0] == accept)
    {
      assert RowRight(r, re[0], 0);
      StartIsFirst(r);
      FollowAtSound(r, 0);
      var start := re[0].lfollow;
      assert 0 in Elems(start);
      if Accept(r) in start {
        var k :| 0 <= k < |start| && start[k] == Accept(r);
        assert start[0] in Elems(start);
      }
    }

    lemma FreshStates()
      requires Rows() && curstat == 2 && |posns| == |out| == 3 && posns[1] == [] && !out[1] && gototab == Zeros()
      requires StateOk(r, posns[2], out[2]) && posns[2] != []
      ensures States()
    {
      hide SymAt, Step, Cell, Parsed;
      assert Elems(posns[1]) == {};
      assert StateOk(r, posns[1], out[1]);
      forall s: nat | 1 <= s <= 2 ensures Cached(r, posns, gototab, s) {
        StrayCached(r, posns, 0, s);
        assert Zeros()[Cell(3, STRAY) := 0] == Zeros();
      }
    }

    /** Take position 0, the last, out of the two start states. */
    method Anchor()
      requires Rows() && States() && curstat == initstat == (if NewHat(r) then 3 else 2)
      requires State(2) == Start(r) && State(initstat) == Hatted(r) && 0 in State(2) && 0 in State(initstat)
      requires Cell(3, STRAY) < TABLE && gototab == Zeros()[Cell(3, STRAY) := initstat]
      modifies `posns, `out
      ensures Ready(true)
    {
      hide SymAt, Step, StateOk, RowsRight, Parsed, Start, Hatted, Cell, Cached, Apart, Zeros, NewHat;
      WithoutZero(r, posns[2], out[2]);
      WithoutZero(r, posns[initstat], out[initstat]);
      StillApart();
      posns := posns[2 := posns[2][..|posns[2]| - 1]];
      if initstat != 2 {
        posns := posns[initstat := posns[initstat][..|posns[initstat]| - 1]];
      }
      posns := posns[0 := posns[2]];
      out := out[0 := out[2]];
      OnlyStarts();
      forall s | 1 <= s <= curstat ensures Cached(r, posns, gototab, s) { StrayCached(r, posns, initstat, s); }
    }

    lemma OnlyStarts()
      requires 2 <= curstat <= 3 && |posns| == curstat + 1 && posns[1] == [] && posns[2] != [] && posns[curstat] != []
      requires curstat == 3 ==> posns[2] != posns[3]
      ensures Apart(posns)
    {
    }

    /** The two start states stay different from each other and from the dead state. */
    lemma StillApart()
      requires Rows() && States() && curstat == initstat == (if NewHat(r) then 3 else 2)
      requires State(2) == Start(r) && State(initstat) == Hatted(r) && posns[2] != [] && posns[initstat] != []
      requires Elems(posns[2][..|posns[2]| - 1]) == Start(r) - {0}
      requires Elems(posns[initstat][..|posns[initstat]| - 1]) == Hatted(r) - {0}
      ensures posns[2][..|posns[2]| - 1] != [] && posns[initstat][..|posns[initstat]| - 1] != []
      ensures NewHat(r) ==> posns[2][..|posns[2]| - 1] != posns[3][..|posns[3]| - 1]
    {
      hide Start, Hatted, Cached, StateOk;
      StartsNotEmpty(r);
      assert Elems([]) == {};
    }

    /** cfoll: the follow set of each leaf of v. */
    method Cfoll(v: Re, ctx: Ctx, ghost b: nat)
      requires Located(r, v, ctx, b) && |re| == accept + 1 == Accept(r) + 1
      modifies `re, work
      ensures |re| == old(|re|) && RowsRight(r, re, b, b + Leaves(v))
      ensures forall p :: 0 <= p < |re| && !(b <= p < b + Leaves(v)) ==> re[p] == old(re)[p]
      decreases v
    {
      hide Located, RowRight;
      Children(r, v, ctx, b);
      match v
      case Leaf(_, _) => CfollLeaf(v, ctx, b);
      case Star(q) => Cfoll(q, InStar(ctx), b);
      case Plus(q) => Cfoll(q, InPlus(ctx), b);
      case Quest(q) => Cfoll(q, InQuest(ctx), b);
      case Cat(x, y) =>
        Cfoll(x, CatLeft(y, ctx), b);
        Cfoll(y, CatRight(x, ctx), b + Leaves(x));
      case Or(x, y) =>
        Cfoll(x, OrLeft(y, ctx), b);
        Cfoll(y, OrRight(x, ctx), b + Leaves(x));
    }

    method CfollLeaf(v: Re, ctx: Ctx, ghost b: nat)
      requires v.Leaf? && Located(r, v, ctx, b) && |re| == accept + 1 == Accept(r) + 1
      modifies `re, work
      ensures |re| == old(|re|) && RowsRight(r, re, b, b + 1)
      ensures forall p :: 0 <= p < |re| && p != b ==> re[p] == old(re)[p]
    {
      hide Located, Collector.Holds;
      LeafFacts(r, v, ctx, b);
      LeafFollow(r, v, ctx, b);
      work.Reset(accept, r);
      work.Follow(v, r, ctx, b, {});
      assert {} + Follow(v, ctx) == Follow(v, ctx);
      var list := work.Listed(r, Follow(v, ctx));
      re := re[v.idx := Row(v.sym, list)];
    }
  }

  lemma LeafFollow(r: Re, v: Re, ctx: Ctx, b: nat)
    requires v.Leaf? && Located(r, v, ctx, b)
    ensures FollowAt(r, b) == Follow(v, ctx) && (v.sym == Final || !Ends(v, ctx))
  {
    LocatedLeaf(r, v, ctx, b);
    Shape(r);
    if b < Accept(r) { InnerPlace(r, b); }
  }

  lemma NothingMore(s: set<nat>)
    ensures s + {} == s
  {
  }

  lemma OneMore(s: set<nat>, list: seq<nat>, j: nat)
    requires j < |list|
    ensures s + Elems(list[..j + 1]) == (s + Elems(list[..j])) + {list[j]}
  {
    assert list[..j + 1] == list[..j] + [list[j]];
    assert Elems(list[..j + 1]) == Elems(list[..j]) + {list[j]};
  }

  lemma StepOfNone(r: Re, c: int)
    ensures Step(r, Elems([]), c) == {} && forall list: seq<nat> :: Step(r, Elems(list[..0]), c) == {}
  {
    assert Elems([]) == {};
    forall list: seq<nat> ensures Step(r, Elems(list[..0]), c) == {} {
      assert list[..0] == [];
    }
  }

  lemma LastIsZero(list: seq<nat>)
    requires Descending(list) && 0 in list
    ensures list != [] && list[|list| - 1] == 0 && Descending(list[..|list| - 1])
    ensures Elems(list[..|list| - 1]) == Elems(list) - {0}
  {
    var k :| 0 <= k < |list| && list[k] == 0;
    var n := |list| - 1;
    assert list[n] <= list[k];
    var init := list[..n];
    assert forall x :: x in list <==> x in init || x == list[n];
    assert forall i :: 0 <= i < n ==> init[i] == list[i] > list[n];
  }

  lemma WithoutZero(r: Re, list: seq<nat>, final: bool)
    requires StateOk(r, list, final) && 0 in Elems(list)
    ensures list != [] && StateOk(r, list[..|list| - 1], final) && Elems(list[..|list| - 1]) == Elems(list) - {0}
  {
    hide SymAt;
    LastIsZero(list);
    var init := list[..|list| - 1];
    assert Accept(r) in init <==> Accept(r) in Elems(init);
    assert Accept(r) in list <==> Accept(r) in Elems(list);
  }

  lemma RootIsRenumbered(s: Re)
    requires NoFinal(s)
    ensures var p1 := Cat(Cat(Star(Leaf(All, 0)), s), Leaf(Final, 0));
            var r := Renumber(s, 1);
            Renumber(p1, 0) == Root(r) && Leaves(p1) == Leaves(Root(r)) == Accept(r) + 1
            && Located(r, Root(r), Top, 0) && Parsed(r)
  {
    var p1 := Cat(Cat(Star(Leaf(All, 0)), s), Leaf(Final, 0));
    var r := Renumber(s, 1);
    RenumberIsNumbered(s, 1);
    RootFits(r);
    var star := Star(Leaf(All, 0));
    assert Renumber(star, 0) == Star(Renumber(Leaf(All, 0), 0)) == star;
    assert Leaves(star) == Leaves(Leaf(All, 0)) == 1;
    assert Renumber(Cat(star, s), 0) == Cat(star, r);
    assert Leaves(Cat(star, s)) == Accept(r);
    assert Leaves(Leaf(Final, 0)) == 1;
  }
}
