/** The stacks behind bc's variables and arrays, and what a call pushes on them. */
module BcMemory {

  datatype Kind = VAR | ARRAY | REF

  /** A parameter or auto variable: where it lives and what it is. */
  datatype Param = Param(loc: nat, kind: Kind)

  /** One entry of a variable's or an array's stack; a reference names the entry it stands for. */
  datatype Slot = Number(n: int) | Cells(xs: seq<int>) | Ref(loc: nat, pos: nat)

  /** What a call finds on the result stack. */
  datatype Arg = Temp(n: int) | VarOf(loc: nat) | ArrayOf(loc: nat) | Void

  datatype Mem = Mem(vars: seq<seq<Slot>>, arrs: seq<seq<Slot>>)

  /** Variables and arrays live side by side: a name of each may have the same number. */
  function Stacks(m: Mem, p: Param): seq<seq<Slot>> {
    if p.kind == VAR then m.vars else m.arrs
  }

  predicate Same(p: Param, q: Param) {
    p.loc == q.loc && (p.kind == VAR <==> q.kind == VAR)
  }

  predicate Has(m: Mem, p: Param) {
    p.loc < |Stacks(m, p)|
  }

  function At(m: Mem, p: Param): seq<Slot>
    requires Has(m, p)
  {
    Stacks(m, p)[p.loc]
  }

  function Put(m: Mem, p: Param, stack: seq<Slot>): Mem
    requires Has(m, p)
  {
    if p.kind == VAR then m.(vars := m.vars[p.loc := stack]) else m.(arrs := m.arrs[p.loc := stack])
  }

  function Push(m: Mem, p: Param, x: Slot): Mem
    requires Has(m, p)
  {
    Put(m, p, At(m, p) + [x])
  }

  /** An array entry and where a reference to it would lead. */
  function Target(m: Mem, loc: nat, pos: nat): Slot
    requires loc < |m.arrs| && pos < |m.arrs[loc]|
  {
    if m.arrs[loc][pos].Ref? then m.arrs[loc][pos] else Ref(loc, pos)
  }

  /** A reference that names cells. */
  predicate Names(m: Mem, x: Slot) {
    x.Ref? && x.loc < |m.arrs| && x.pos < |m.arrs[x.loc]| && m.arrs[x.loc][x.pos].Cells?
  }

  /** bc_program_dereference. */
  function Deref(m: Mem, x: Slot): (y: Slot)
    requires Names(m, x)
    ensures y.Cells?
  {
    m.arrs[x.loc][x.pos]
  }

  predicate SlotOk(m: Mem, isArr: bool, x: Slot) {
    if isArr then x.Cells? || Names(m, x) else x.Number?
  }

  /** No stack is empty, variables hold numbers, and every reference names cells. */
  ghost predicate Typed(m: Mem) {
    (forall l :: 0 <= l < |m.vars| ==> m.vars[l] != [] && forall j :: 0 <= j < |m.vars[l]| ==> SlotOk(m, false, m.vars[l][j]))
    && (forall l :: 0 <= l < |m.arrs| ==> m.arrs[l] != [] && forall j :: 0 <= j < |m.arrs[l]| ==> SlotOk(m, true, m.arrs[l][j]))
  }

  predicate ArgFits(m: Mem, a: Arg, kind: Kind) {
    match a
    case Temp(_) => kind == VAR
    case VarOf(l) => kind == VAR && l < |m.vars|
    case ArrayOf(l) => kind != VAR && l < |m.arrs|
    case Void => false
  }

  /** The name an argument is, if it is one. */
  predicate IsName(a: Arg) {
    a.VarOf? || a.ArrayOf?
  }

  function Place(a: Arg): Param
    requires IsName(a)
  {
    Param(a.loc, if a.VarOf? then VAR else ARRAY)
  }

  predicate CanBeCopied(m: Mem, a: Arg, kind: Kind, back: nat) {
    ArgFits(m, a, kind) && (IsName(a) ==> back < |At(m, Place(a))|)
    && (a.ArrayOf? ==> SlotOk(m, true, m.arrs[a.loc][|m.arrs[a.loc]| - 1 - back]))
  }

  /** What bc_program_copyToVar pushes: `back` is 1 to look one entry below the top. */
  function Copied(m: Mem, a: Arg, kind: Kind, back: nat): Slot
    requires CanBeCopied(m, a, kind, back)
  {
    match a
    case Temp(n) => Number(n)
    case VarOf(l) => m.vars[l][|m.vars[l]| - 1 - back]
    case ArrayOf(l) =>
      var pos := |m.arrs[l]| - 1 - back;
      var v := m.arrs[l][pos];
      if kind == REF then Target(m, l, pos) else if v.Ref? then Deref(m, v) else v
  }

  /** The contents an array name stands for: its newest entry's cells, or the cells of the entry this one refers
      to. */
  ghost function Contents(m: Mem, loc: nat): seq<int>
    requires Typed(m) && loc < |m.arrs|
  {
    var x := m.arrs[loc][|m.arrs[loc]| - 1];
    if x.Cells? then x.xs else m.arrs[x.loc][x.pos].xs
  }

  /** What the caller's argument is worth: a number itself, a variable's newest entry, an array's contents, or,
      for a parameter by reference, the entry that the caller's name stands for. */
  ghost function Bound(m: Mem, a: Arg, kind: Kind): Slot
    requires Typed(m) && ArgFits(m, a, kind)
  {
    match a
    case Temp(n) => Number(n)
    case VarOf(l) => m.vars[l][|m.vars[l]| - 1]
    case ArrayOf(l) =>
      var top := |m.arrs[l]| - 1;
      if kind == ARRAY then Cells(Contents(m, l)) else if m.arrs[l][top].Ref? then m.arrs[l][top] else Ref(l, top)
  }

  /** A look at the top entry gives just that. */
  lemma CopiedTop(m: Mem, a: Arg, kind: Kind)
    requires Typed(m) && ArgFits(m, a, kind)
    ensures a.ArrayOf? ==> SlotOk(m, true, m.arrs[a.loc][|m.arrs[a.loc]| - 1])
    ensures IsName(a) ==> At(m, Place(a)) != []
    ensures Copied(m, a, kind, 0) == Bound(m, a, kind)
  {
    if a.ArrayOf? { TypedAt(m, true, a.loc, |m.arrs[a.loc]| - 1); }
  }

  /** By copy or by reference, an array parameter starts with the caller's contents; a reference leads to
      the very entry that the caller's name stands for. */
  lemma BoundContents(m: Mem, loc: nat)
    requires Typed(m) && loc < |m.arrs|
    ensures Bound(m, ArrayOf(loc), ARRAY) == Cells(Contents(m, loc))
    ensures Names(m, Bound(m, ArrayOf(loc), REF)) && Deref(m, Bound(m, ArrayOf(loc), REF)) == Cells(Contents(m, loc))
  {
    assert SlotOk(m, true, m.arrs[loc][|m.arrs[loc]| - 1]);
  }

  // ------------------------------------------------------------- growing memory

  /** Every stack of m starts the corresponding stack of w. */
  ghost predicate Grown(m: Mem, w: Mem) {
    |m.vars| == |w.vars| && |m.arrs| == |w.arrs|
    && (forall l :: 0 <= l < |m.vars| ==> |m.vars[l]| <= |w.vars[l]| && w.vars[l][..|m.vars[l]|] == m.vars[l])
    && (forall l :: 0 <= l < |m.arrs| ==> |m.arrs[l]| <= |w.arrs[l]| && w.arrs[l][..|m.arrs[l]|] == m.arrs[l])
  }

  lemma GrownAt(m: Mem, w: Mem, loc: nat, pos: nat)
    requires Grown(m, w) && loc < |m.arrs| && pos < |m.arrs[loc]|
    ensures pos < |w.arrs[loc]| && w.arrs[loc][pos] == m.arrs[loc][pos]
  {
    assert w.arrs[loc][..|m.arrs[loc]|][pos] == m.arrs[loc][pos];
  }

  /** References keep their meaning while stacks grow. */
  lemma GrownNames(m: Mem, w: Mem, x: Slot)
    requires Grown(m, w) && Names(m, x)
    ensures Names(w, x) && Deref(w, x) == Deref(m, x)
  {
    GrownAt(m, w, x.loc, x.pos);
  }

  lemma TypedAt(m: Mem, isArr: bool, loc: nat, pos: nat)
    requires Typed(m)
    requires loc < |if isArr then m.arrs else m.vars| && pos < |(if isArr then m.arrs else m.vars)[loc]|
    ensures SlotOk(m, isArr, (if isArr then m.arrs else m.vars)[loc][pos])
  {
  }

  /** Reading the caller's entry in grown memory gives the caller's value. */
  lemma CopiedGrown(m: Mem, w: Mem, a: Arg, kind: Kind, back: nat)
    requires Typed(m) && Grown(m, w) && ArgFits(m, a, kind)
    requires IsName(a) ==> |At(w, Place(a))| == |At(m, Place(a))| + back
    ensures a.ArrayOf? ==> SlotOk(w, true, w.arrs[a.loc][|w.arrs[a.loc]| - 1 - back])
    ensures Copied(w, a, kind, back) == Bound(m, a, kind)
  {
    CopiedTop(m, a, kind);
    match a
    case Temp(_) =>
    case Void =>
    case VarOf(l) =>
      assert w.vars[l][..|m.vars[l]|][|m.vars[l]| - 1] == m.vars[l][|m.vars[l]| - 1];
    case ArrayOf(l) =>
      var pos := |m.arrs[l]| - 1;
      TypedAt(m, true, l, pos);
      GrownAt(m, w, l, pos);
      if m.arrs[l][pos].Ref? { GrownNames(m, w, m.arrs[l][pos]); }
  }

  lemma BoundOk(m: Mem, a: Arg, kind: Kind)
    requires Typed(m) && ArgFits(m, a, kind)
    ensures SlotOk(m, kind != VAR, Bound(m, a, kind))
    ensures kind == VAR ==> Bound(m, a, kind).Number?
    ensures kind == ARRAY ==> Bound(m, a, kind).Cells?
    ensures kind == REF ==> Bound(m, a, kind).Ref?
  {
    match a
    case Temp(_) =>
    case Void =>
    case VarOf(l) => TypedAt(m, false, l, |m.vars[l]| - 1);
    case ArrayOf(l) => TypedAt(m, true, l, |m.arrs[l]| - 1);
  }

  lemma {:induction false} PushGrows(m: Mem, w: Mem, p: Param, x: Slot)
    requires Grown(m, w) && Has(m, p)
    ensures Has(w, p) && Grown(m, Push(w, p, x))
  {
    if p.kind == VAR {
      assert (w.vars[p.loc] + [x])[..|m.vars[p.loc]|] == w.vars[p.loc][..|m.vars[p.loc]|];
    } else {
      assert (w.arrs[p.loc] + [x])[..|m.arrs[p.loc]|] == w.arrs[p.loc][..|m.arrs[p.loc]|];
    }
  }
}
