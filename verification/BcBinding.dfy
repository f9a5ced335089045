/** How a bc call binds its parameters, one after the other, and when that is the same as all at once. */
module BcBinding {
  import opened BcMemory

  /** A function: its parameters come first in `autos`. One that was only called so far has no code yet. */
  datatype Func = Func(autos: seq<Param>, nparams: nat, defined: bool)

  /** What bc_func_insert lets through. */
  ghost predicate FuncOk(f: Func) {
    f.nparams <= |f.autos|
    && (forall i, j :: 0 <= i < j < |f.autos| ==> f.autos[i] != f.autos[j])
    && (forall i :: f.nparams <= i < |f.autos| ==> f.autos[i].kind != REF)
  }

  /** No name is declared twice, not even once as an array and once as a reference. */
  ghost predicate NoClash(autos: seq<Param>) {
    forall i, j :: 0 <= i < j < |autos| ==> !Same(autos[i], autos[j])
  }

  /** A call whose last i arguments match their parameters. */
  ghost predicate ReadyFor(m: Mem, f: Func, args: seq<Arg>, i: int) {
    Typed(m) && FuncOk(f) && |args| == f.nparams <= |f.autos|
    && (forall k :: 0 <= k < |f.autos| ==> Has(m, f.autos[k]))
    && (forall k :: 0 <= k < |args| && |args| - i <= k ==> ArgFits(m, args[k], f.autos[k].kind))
  }

  /** A call whose arguments match the parameters. */
  ghost predicate Ready(m: Mem, f: Func, args: seq<Arg>) {
    ReadyFor(m, f, args, f.nparams)
  }

  lemma ReadyFewer(m: Mem, f: Func, args: seq<Arg>, i: int)
    requires Ready(m, f, args) && i <= f.nparams
    ensures ReadyFor(m, f, args, i)
  {
  }

  /** Some of the last i parameters lives where p does. */
  ghost predicate Seen(f: Func, i: nat, p: Param)
    requires i <= f.nparams <= |f.autos|
  {
    exists j :: f.nparams - i <= j < f.nparams && Same(f.autos[j], p)
  }

  lemma SeenOne(f: Func, i: nat, p: Param)
    requires i < f.nparams <= |f.autos|
    ensures Seen(f, i + 1, p) <==> Seen(f, i, p) || Same(f.autos[f.nparams - 1 - i], p)
  {
    if Seen(f, i + 1, p) && !Same(f.autos[f.nparams - 1 - i], p) {
      var j :| f.nparams - i - 1 <= j < f.nparams && Same(f.autos[j], p);
      assert f.nparams - i <= j;
    }
  }

  /** How far below the top the caller's entry is taken to be. */
  ghost function Back(f: Func, i: nat, a: Arg): nat
    requires i <= f.nparams <= |f.autos|
  {
    if IsName(a) && Seen(f, i, Place(a)) then 1 else 0
  }

  // ------------------------------------------------------------ pushing keeps types

  lemma PushOk(m: Mem, p: Param, x: Slot, isArr: bool, y: Slot)
    requires Has(m, p) && SlotOk(m, isArr, y)
    ensures SlotOk(Push(m, p, x), isArr, y)
  {
  }

  lemma PushTyped(m: Mem, p: Param, x: Slot)
    requires Typed(m) && Has(m, p) && SlotOk(m, p.kind != VAR, x)
    ensures Typed(Push(m, p, x))
  {
    var w := Push(m, p, x);
    forall l, j | 0 <= l < |w.vars| && 0 <= j < |w.vars[l]| ensures SlotOk(w, false, w.vars[l][j]) {
      PushedSlot(m, p, x, false, l, j);
    }
    forall l, j | 0 <= l < |w.arrs| && 0 <= j < |w.arrs[l]| ensures SlotOk(w, true, w.arrs[l][j]) {
      PushedSlot(m, p, x, true, l, j);
    }
  }

  lemma PushedSlot(m: Mem, p: Param, x: Slot, isArr: bool, l: nat, j: nat)
    requires Typed(m) && Has(m, p) && SlotOk(m, p.kind != VAR, x)
    requires l < |if isArr then Push(m, p, x).arrs else Push(m, p, x).vars|
    requires j < |(if isArr then Push(m, p, x).arrs else Push(m, p, x).vars)[l]|
    ensures SlotOk(Push(m, p, x), isArr, (if isArr then Push(m, p, x).arrs else Push(m, p, x).vars)[l][j])
  {
    var w := Push(m, p, x);
    var y := (if isArr then w.arrs else w.vars)[l][j];
    if isArr == (p.kind != VAR) && l == p.loc && j == |At(m, p)| {
      PushOk(m, p, x, isArr, x);
    } else {
      TypedAt(m, isArr, l, j);
      PushOk(m, p, x, isArr, y);
    }
  }

  lemma CopiedOk(m: Mem, a: Arg, kind: Kind, back: nat)
    requires Typed(m) && ArgFits(m, a, kind) && (IsName(a) ==> back < |At(m, Place(a))|)
    ensures a.ArrayOf? ==> SlotOk(m, true, m.arrs[a.loc][|m.arrs[a.loc]| - 1 - back])
    ensures SlotOk(m, kind != VAR, Copied(m, a, kind, back))
    ensures kind == ARRAY ==> Copied(m, a, kind, back).Cells?
    ensures kind == REF ==> Copied(m, a, kind, back).Ref?
  {
    match a
    case VarOf(l) => TypedAt(m, false, l, |m.vars[l]| - 1 - back);
    case ArrayOf(l) => TypedAt(m, true, l, |m.arrs[l]| - 1 - back);
    case _ =>
  }

  // ---------------------------------------------------------------- one by one

  /** What holds of memory while parameters are pushed. */
  ghost predicate Partly(m: Mem, f: Func, i: nat, w: Mem)
    requires i <= f.nparams <= |f.autos|
  {
    Typed(w) && Grown(m, w)
    && forall p :: Has(m, p) && Seen(f, i, p) ==> Has(w, p) && |At(w, p)| > |At(m, p)|
  }

  lemma CanCopy(m: Mem, f: Func, args: seq<Arg>, i: nat, w: Mem)
    requires ReadyFor(m, f, args, i + 1) && i < f.nparams && Partly(m, f, i, w)
    ensures var a, p := args[f.nparams - 1 - i], f.autos[f.nparams - 1 - i];
            var back := Back(f, i, a);
            Has(w, p) && ArgFits(w, a, p.kind) && (IsName(a) ==> back < |At(w, Place(a))|)
            && (a.ArrayOf? ==> SlotOk(w, true, w.arrs[a.loc][|w.arrs[a.loc]| - 1 - back]))
            && SlotOk(w, p.kind != VAR, Copied(w, a, p.kind, back))
  {
    var a, p := args[f.nparams - 1 - i], f.autos[f.nparams - 1 - i];
    var back := Back(f, i, a);
    if IsName(a) && back == 1 {
      assert Has(m, Place(a)) && At(m, Place(a)) != [];
      assert |At(w, Place(a))| > |At(m, Place(a))|;
    }
    CopiedOk(w, a, p.kind, back);
  }

  /** One parameter more. */
  ghost function BindOne(m: Mem, f: Func, args: seq<Arg>, i: nat, w: Mem): Mem
    requires ReadyFor(m, f, args, i + 1) && i < f.nparams && Partly(m, f, i, w)
  {
    CanCopy(m, f, args, i, w);
    var a, p := args[f.nparams - 1 - i], f.autos[f.nparams - 1 - i];
    Push(w, p, Copied(w, a, p.kind, Back(f, i, a)))
  }

  lemma PushDepth(m: Mem, w: Mem, p: Param, x: Slot, q: Param)
    requires Grown(m, w) && Has(m, p) && Has(m, q)
    ensures Has(w, p) && Has(w, q) && Has(Push(w, p, x), q)
    ensures At(Push(w, p, x), q) == if Same(p, q) then At(w, q) + [x] else At(w, q)
    ensures |At(w, q)| >= |At(m, q)|
  {
    if Same(p, q) { assert At(w, p) == At(w, q); }
  }

  lemma BindOneKeeps(m: Mem, f: Func, args: seq<Arg>, i: nat, w: Mem)
    requires ReadyFor(m, f, args, i + 1) && i < f.nparams && Partly(m, f, i, w)
    ensures Partly(m, f, i + 1, BindOne(m, f, args, i, w))
  {
    hide Typed, Grown, SlotOk, Copied, Seen, Push, FuncOk;
    CanCopy(m, f, args, i, w);
    var a, p := args[f.nparams - 1 - i], f.autos[f.nparams - 1 - i];
    var x := Copied(w, a, p.kind, Back(f, i, a));
    PushTyped(w, p, x);
    PushGrows(m, w, p, x);
    assert Has(m, p);
    forall q | Has(m, q) && Seen(f, i + 1, q) ensures Has(Push(w, p, x), q) && |At(Push(w, p, x), q)| > |At(m, q)| {
      SeenOne(f, i, q);
      PushDepth(m, w, p, x, q);
    }
  }

  lemma PartlyStart(m: Mem, f: Func, args: seq<Arg>)
    requires ReadyFor(m, f, args, 0)
    ensures Partly(m, f, 0, m)
  {
  }

  ghost function Next(m: Mem, f: Func, args: seq<Arg>, i: nat, w: Mem): (v: Mem)
    requires ReadyFor(m, f, args, i + 1) && i < f.nparams && Partly(m, f, i, w)
    ensures Partly(m, f, i + 1, v)
  {
    BindOneKeeps(m, f, args, i, w);
    BindOne(m, f, args, i, w)
  }

  ghost function Start(m: Mem, f: Func, args: seq<Arg>): (v: Mem)
    requires ReadyFor(m, f, args, 0)
    ensures Partly(m, f, 0, v)
  {
    PartlyStart(m, f, args);
    m
  }

  /** Memory after the last i parameters have been pushed, last parameter first. */
  ghost function Bind(m: Mem, f: Func, args: seq<Arg>, i: nat): (w: Mem)
    requires ReadyFor(m, f, args, i) && i <= f.nparams
    ensures Partly(m, f, i, w)
  {
    hide Partly, Typed, FuncOk, ArgFits;
    if i == 0 then Start(m, f, args) else Next(m, f, args, i - 1, Bind(m, f, args, i - 1))
  }

  function Initial(kind: Kind): Slot {
    if kind == VAR then Number(0) else Cells([0])
  }

  /** The auto variables that are no parameters start at zero. */
  ghost function Locals(m: Mem, autos: seq<Param>): (w: Mem)
    requires Typed(m) && forall i :: 0 <= i < |autos| ==> Has(m, autos[i])
    ensures Typed(w) && Grown(m, w)
  {
    if autos == [] then m
    else
      var n := |autos|;
      var w := Locals(m, autos[..n - 1]);
      LocalKeeps(m, w, autos[n - 1]);
      Push(w, autos[n - 1], Initial(autos[n - 1].kind))
  }

  lemma LocalKeeps(m: Mem, w: Mem, p: Param)
    requires Typed(w) && Grown(m, w) && Has(m, p)
    ensures Has(w, p) && Typed(Push(w, p, Initial(p.kind))) && Grown(m, Push(w, p, Initial(p.kind)))
  {
    hide Typed;
    PushGrows(m, w, p, Initial(p.kind));
    PushTyped(w, p, Initial(p.kind));
  }

  /** Memory in the callee. */
  ghost function Called(m: Mem, f: Func, args: seq<Arg>): Mem
    requires Ready(m, f, args)
  {
    Locals(Bind(m, f, args, f.nparams), f.autos[f.nparams..])
  }

  // ------------------------------------------------------------------ all at once

  /** What the i-th name should stand for in the callee, judged in the caller's memory: a parameter for its
      argument, any other variable for 0, any other array for one cell of 0. */
  ghost function Expected(m: Mem, f: Func, args: seq<Arg>, i: nat): Slot
    requires Ready(m, f, args) && i < |f.autos|
  {
    if i < f.nparams then Bound(m, args[i], f.autos[i].kind)
    else if f.autos[i].kind == VAR then Number(0)
    else Cells([0])
  }

  function Top(m: Mem, p: Param): Slot
    requires Has(m, p)
  {
    if At(m, p) == [] then Number(0) else At(m, p)[|At(m, p)| - 1]
  }

  ghost predicate AllBound(m: Mem, f: Func, args: seq<Arg>, w: Mem)
    requires Ready(m, f, args)
  {
    forall i :: 0 <= i < |f.autos| ==> Has(w, f.autos[i]) && Top(w, f.autos[i]) == Expected(m, f, args, i)
  }

  /** A stack is one deeper where a parameter has been pushed and untouched elsewhere. */
  ghost predicate Exact(m: Mem, f: Func, i: nat, w: Mem, q: Param)
    requires i <= f.nparams <= |f.autos| && Has(m, q)
  {
    Has(w, q) && |At(w, q)| == |At(m, q)| + (if Seen(f, i, q) then 1 else 0)
  }

  lemma ExactPush(m: Mem, f: Func, i: nat, w: Mem, x: Slot)
    requires NoClash(f.autos) && i < f.nparams <= |f.autos| && Has(m, f.autos[f.nparams - 1 - i]) && Grown(m, w)
    requires forall q :: Has(m, q) ==> Exact(m, f, i, w, q)
    ensures Has(w, f.autos[f.nparams - 1 - i])
    ensures forall q :: Has(m, q) ==> Exact(m, f, i + 1, Push(w, f.autos[f.nparams - 1 - i], x), q)
  {
    hide Grown, Seen, Push, NoClash;
    var p := f.autos[f.nparams - 1 - i];
    GrownHas(m, w, p);
    forall q | Has(m, q) ensures Exact(m, f, i + 1, Push(w, p, x), q) {
      assert Exact(m, f, i, w, q);
      SeenOne(f, i, q);
      PushDepth(m, w, p, x, q);
      if Same(p, q) { NotSeenYet(f, i, q); }
    }
  }

  /** Without clashes each new parameter finds the caller's value, wherever it has to look. */
  lemma BindOneValue(m: Mem, f: Func, args: seq<Arg>, i: nat, w: Mem)
    requires Ready(m, f, args) && i < f.nparams && Partly(m, f, i, w)
    requires forall q :: Has(m, q) ==> Exact(m, f, i, w, q)
    ensures Has(w, f.autos[f.nparams - 1 - i]) && Grown(m, w)
    ensures BindOne(m, f, args, i, w)
            == Push(w, f.autos[f.nparams - 1 - i], Expected(m, f, args, f.nparams - 1 - i))
  {
    hide Typed, Grown, SlotOk, Copied, Seen, Push, FuncOk, Bound;
    var k := f.nparams - 1 - i;
    var a, p := args[k], f.autos[k];
    if IsName(a) { assert Has(m, Place(a)) && Exact(m, f, i, w, Place(a)); }
    CanCopy(m, f, args, i, w);
    CopiedGrown(m, w, a, p.kind, Back(f, i, a));
  }

  lemma BindOneRight(m: Mem, f: Func, args: seq<Arg>, i: nat, w: Mem)
    requires Ready(m, f, args) && NoClash(f.autos) && i < f.nparams && Partly(m, f, i, w)
    requires forall q :: Has(m, q) ==> Exact(m, f, i, w, q)
    ensures BindOne(m, f, args, i, w)
            == Push(w, f.autos[f.nparams - 1 - i], Expected(m, f, args, f.nparams - 1 - i))
    ensures forall q :: Has(m, q) ==> Exact(m, f, i + 1, BindOne(m, f, args, i, w), q)
  {
    hide Typed, Grown, SlotOk, Copied, Seen, Push, FuncOk, NoClash, Bound, BindOne, Exact, Partly;
    assert Has(m, f.autos[f.nparams - 1 - i]);
    BindOneValue(m, f, args, i, w);
    ExactPush(m, f, i, w, Expected(m, f, args, f.nparams - 1 - i));
  }

  lemma NotSeenYet(f: Func, i: nat, q: Param)
    requires NoClash(f.autos) && i < f.nparams <= |f.autos| && Same(f.autos[f.nparams - 1 - i], q)
    ensures !Seen(f, i, q)
  {
  }

  lemma TopPushed(w: Mem, p: Param, x: Slot, q: Param)
    requires Has(w, p) && Has(w, q)
    ensures Has(Push(w, p, x), q) && Top(Push(w, p, x), q) == if Same(p, q) then x else Top(w, q)
  {
    if Same(p, q) { assert At(w, p) == At(w, q); }
  }

  /** The parameters so far have the caller's values. */
  lemma {:induction false} BindAll(m: Mem, f: Func, args: seq<Arg>, i: nat)
    requires Ready(m, f, args) && NoClash(f.autos) && i <= f.nparams
    ensures forall q :: Has(m, q) ==> Exact(m, f, i, Bind(m, f, args, i), q)
    ensures forall j :: f.nparams - i <= j < f.nparams ==>
              Has(Bind(m, f, args, i), f.autos[j]) && Top(Bind(m, f, args, i), f.autos[j]) == Expected(m, f, args, j)
  {
    hide Typed, Grown, SlotOk, Copied, Seen, Push, FuncOk, NoClash, Bound, BindOne, Top, Expected;
    if i > 0 {
      BindAll(m, f, args, i - 1);
      var w := Bind(m, f, args, i - 1);
      BindOneRight(m, f, args, i - 1, w);
      var k := f.nparams - i;
      assert Has(m, f.autos[k]);
      forall j | k <= j < f.nparams
        ensures Has(Bind(m, f, args, i), f.autos[j]) && Top(Bind(m, f, args, i), f.autos[j]) == Expected(m, f, args, j)
      {
        assert Has(m, f.autos[j]);
        TopPushed(w, f.autos[k], Expected(m, f, args, k), f.autos[j]);
        if j > k { Apart(f, k, j); }
      }
    } else {
      NoneSeen(m, f);
    }
  }

  lemma Apart(f: Func, k: nat, j: nat)
    requires NoClash(f.autos) && k < j < |f.autos|
    ensures !Same(f.autos[k], f.autos[j])
  {
  }

  lemma NoneSeen(m: Mem, f: Func)
    requires f.nparams <= |f.autos|
    ensures forall q :: Has(m, q) ==> Exact(m, f, 0, m, q)
  {
  }

  lemma GrownHas(m: Mem, w: Mem, p: Param)
    requires Grown(m, w) && Has(m, p)
    ensures Has(w, p)
  {
  }

  lemma {:induction false} LocalsTop(m: Mem, autos: seq<Param>, q: Param)
    requires Typed(m) && Has(m, q) && forall i :: 0 <= i < |autos| ==> Has(m, autos[i]) && autos[i].kind != REF
    ensures Has(Locals(m, autos), q)
    ensures (forall i :: 0 <= i < |autos| ==> !Same(autos[i], q)) ==> Top(Locals(m, autos), q) == Top(m, q)
    ensures forall i :: 0 <= i < |autos| && Same(autos[i], q) && q.kind != REF ==>
              Top(Locals(m, autos), q) == Initial(q.kind)
  {
    hide Typed, Grown, Push, Top, Initial;
    if autos != [] {
      var n := |autos|;
      LocalsTop(m, autos[..n - 1], q);
      GrownHas(m, Locals(m, autos[..n - 1]), autos[n - 1]);
      TopPushed(Locals(m, autos[..n - 1]), autos[n - 1], Initial(autos[n - 1].kind), q);
      forall i | 0 <= i < n && Same(autos[i], q) && q.kind != REF
        ensures Top(Locals(m, autos), q) == Initial(q.kind)
      {
        if Same(autos[n - 1], q) { assert autos[n - 1].kind == q.kind; } else { assert autos[..n - 1][i] == autos[i]; }
      }
    }
  }

  /** A parameter's value survives the locals pushed after it. */
  lemma ParamKept(m: Mem, f: Func, args: seq<Arg>, i: nat)
    requires Ready(m, f, args) && NoClash(f.autos) && i < f.nparams
    ensures Has(Called(m, f, args), f.autos[i]) && Top(Called(m, f, args), f.autos[i]) == Expected(m, f, args, i)
  {
    hide Typed, Grown, Seen, Push, Copied, Bound, BindOne, Bind, Partly, Top, Locals, Exact;
    BindAll(m, f, args, f.nparams);
    var w, rest := Bind(m, f, args, f.nparams), f.autos[f.nparams..];
    RestHas(m, f, args);
    LocalsTop(w, rest, f.autos[i]);
  }

  lemma LocalZero(m: Mem, f: Func, args: seq<Arg>, i: nat)
    requires Ready(m, f, args) && f.nparams <= i < |f.autos|
    ensures Has(Called(m, f, args), f.autos[i]) && Top(Called(m, f, args), f.autos[i]) == Initial(f.autos[i].kind)
  {
    hide Typed, Grown, Seen, Push, Copied, BindOne, Bind, Partly, Top, Locals;
    var w, rest := Bind(m, f, args, f.nparams), f.autos[f.nparams..];
    RestHas(m, f, args);
    assert rest[i - f.nparams] == f.autos[i];
    LocalsTop(w, rest, f.autos[i]);
  }

  lemma RestHas(m: Mem, f: Func, args: seq<Arg>)
    requires Ready(m, f, args)
    ensures var w := Bind(m, f, args, f.nparams);
            Typed(w) && (forall i :: 0 <= i < |f.autos| ==> Has(w, f.autos[i]))
    ensures forall i :: 0 <= i < |f.autos[f.nparams..]| ==> f.autos[f.nparams..][i].kind != REF
  {
    hide Typed, Bind, Seen;
    var w := Bind(m, f, args, f.nparams);
    forall i | 0 <= i < |f.autos| ensures Has(w, f.autos[i]) { GrownHas(m, w, f.autos[i]); }
  }

  lemma CallBinds(m: Mem, f: Func, args: seq<Arg>)
    requires Ready(m, f, args) && NoClash(f.autos)
    ensures AllBound(m, f, args, Called(m, f, args))
  {
    hide Ready, NoClash, Called, Bound, Top, Has, Typed;
    forall i | 0 <= i < |f.autos|
      ensures Has(Called(m, f, args), f.autos[i]) && Top(Called(m, f, args), f.autos[i]) == Expected(m, f, args, i)
    {
      if i < f.nparams { ParamKept(m, f, args, i); } else { LocalZero(m, f, args, i); }
    }
  }

  /** Two declarations of one name cannot both get what they should. */
  lemma ClashBreaks(m: Mem, f: Func, args: seq<Arg>, i: nat, j: nat)
    requires Ready(m, f, args)
    requires i < j < |f.autos| && Same(f.autos[i], f.autos[j])
    ensures Expected(m, f, args, i) != Expected(m, f, args, j)
  {
    assert f.autos[i] != f.autos[j];
    if i < f.nparams { BoundOk(m, args[i], f.autos[i].kind); }
    if j < f.nparams { BoundOk(m, args[j], f.autos[j].kind); }
  }

  /** Every parameter starts with the caller's value of its argument, and every other auto variable at zero,
      if and only if no name is declared both as an array and as a reference. */
  lemma SimultaneousIff(m: Mem, f: Func, args: seq<Arg>)
    requires Ready(m, f, args)
    ensures AllBound(m, f, args, Called(m, f, args)) <==> NoClash(f.autos)
  {
    hide Ready, NoClash, AllBound;
    if NoClash(f.autos) { CallBinds(m, f, args); } else { ClashFails(m, f, args, Called(m, f, args)); }
  }

  lemma ClashFails(m: Mem, f: Func, args: seq<Arg>, w: Mem)
    requires Ready(m, f, args) && !NoClash(f.autos)
    ensures !AllBound(m, f, args, w)
  {
    hide Ready, Expected, Top;
    var i, j :| 0 <= i < j < |f.autos| && Same(f.autos[i], f.autos[j]);
    ClashBreaks(m, f, args, i, j);
    if Has(w, f.autos[i]) && Has(w, f.autos[j]) { SameTop(w, f.autos[i], f.autos[j]); }
  }

  lemma SameTop(w: Mem, p: Param, q: Param)
    requires Has(w, p) && Has(w, q) && Same(p, q)
    ensures Top(w, p) == Top(w, q)
  {
  }

  /** Inside a function without clashes, name by name: a variable parameter stands for the number it was called with
      or the newest entry of the caller's variable, an array parameter for a copy of the caller's array or a reference
      to it, and every other name for 0. */
  lemma CalleeValues(m: Mem, f: Func, args: seq<Arg>, i: nat)
    requires Ready(m, f, args) && NoClash(f.autos) && i < |f.autos|
    ensures Has(Called(m, f, args), f.autos[i])
    ensures var x, p := Top(Called(m, f, args), f.autos[i]), f.autos[i];
            if i >= f.nparams then x == if p.kind == VAR then Number(0) else Cells([0])
            else match args[i]
                 case Temp(n) => x == Number(n)
                 case VarOf(l) => l < |m.vars| && m.vars[l] != [] && x == m.vars[l][|m.vars[l]| - 1]
                 case ArrayOf(l) => l < |m.arrs| && (if p.kind == ARRAY then x == Cells(Contents(m, l))
                                                     else Names(m, x) && m.arrs[x.loc][x.pos] == Cells(Contents(m, l)))
                 case Void => false
  {
    hide Called, Top, NoClash, Contents;
    CallBinds(m, f, args);
    if i < f.nparams && args[i].ArrayOf? { BoundContents(m, args[i].loc); }
  }

  /** One step of Bind, with what it copies spelled out. */
  lemma BindStep(m: Mem, f: Func, args: seq<Arg>, i: nat, w: Mem)
    requires ReadyFor(m, f, args, i + 1) && i < f.nparams && Bind(m, f, args, i) == w
    ensures var a, p := args[f.nparams - 1 - i], f.autos[f.nparams - 1 - i];
            var back := Back(f, i, a);
            Has(w, p) && ArgFits(w, a, p.kind) && (IsName(a) ==> back < |At(w, Place(a))|)
            && (a.ArrayOf? ==> SlotOk(w, true, w.arrs[a.loc][|w.arrs[a.loc]| - 1 - back]))
            && Bind(m, f, args, i + 1) == Push(w, p, Copied(w, a, p.kind, back))
  {
    hide Typed, FuncOk, Seen, Partly, Push, Copied, SlotOk;
    CanCopy(m, f, args, i, w);
    BindNext(m, f, args, i);
  }

  lemma BindNext(m: Mem, f: Func, args: seq<Arg>, i: nat)
    requires ReadyFor(m, f, args, i + 1) && i < f.nparams
    ensures Bind(m, f, args, i + 1) == BindOne(m, f, args, i, Bind(m, f, args, i))
  {
  }

  /** The function of ClashExample. */
  const BAA: Func := Func([Param(1, ARRAY), Param(0, ARRAY), Param(0, REF)], 3, true)

  const BAA_ARGS: seq<Arg> := [ArrayOf(0), ArrayOf(1), ArrayOf(2)]

  function ThreeArrays(x: int, y: int): Mem {
    Mem([], [[Cells([x])], [Cells([0])], [Cells([y])]])
  }

  lemma ExampleReady(x: int, y: int)
    ensures Ready(ThreeArrays(x, y), BAA, BAA_ARGS)
  {
  }

  lemma ExampleBack()
    ensures Back(BAA, 0, ArrayOf(2)) == 0 && Back(BAA, 1, ArrayOf(1)) == 0 && Back(BAA, 2, ArrayOf(0)) == 1
  {
    assert Same(BAA.autos[2], Param(0, ARRAY));
    assert !Same(BAA.autos[2], Param(1, ARRAY));
  }

  lemma ExampleSteps(x: int, y: int)
    requires Ready(ThreeArrays(x, y), BAA, BAA_ARGS)
    ensures Bind(ThreeArrays(x, y), BAA, BAA_ARGS, 3)
            == Mem([], [[Cells([x]), Ref(2, 0), Cells([0])], [Cells([0]), Cells([y])], [Cells([y])]])
  {
    hide Typed, FuncOk, Partly, Bind, ReadyFor, Back, Push, Copied;
    var m := ThreeArrays(x, y);
    ExampleBack();
    var w1 := Mem([], [[Cells([x]), Ref(2, 0)], [Cells([0])], [Cells([y])]]);
    var w2 := Mem([], [[Cells([x]), Ref(2, 0), Cells([0])], [Cells([0])], [Cells([y])]]);
    ReadyFewer(m, BAA, BAA_ARGS, 0);
    BindNone(m, BAA, BAA_ARGS);
    ReadyFewer(m, BAA, BAA_ARGS, 1);
    ReadyFewer(m, BAA, BAA_ARGS, 2);
    BindStep(m, BAA, BAA_ARGS, 0, m);
    ExamplePushes(x, y, m, w1, w2);
    BindStep(m, BAA, BAA_ARGS, 1, w1);
    BindStep(m, BAA, BAA_ARGS, 2, w2);
  }

  lemma ExamplePushes(x: int, y: int, m: Mem, w1: Mem, w2: Mem)
    requires m == ThreeArrays(x, y) && w1 == Mem([], [[Cells([x]), Ref(2, 0)], [Cells([0])], [Cells([y])]])
    requires w2 == Mem([], [[Cells([x]), Ref(2, 0), Cells([0])], [Cells([0])], [Cells([y])]])
    ensures Push(m, Param(0, REF), Copied(m, ArrayOf(2), REF, 0)) == w1
    ensures Push(w1, Param(0, ARRAY), Copied(w1, ArrayOf(1), ARRAY, 0)) == w2
    ensures Push(w2, Param(1, ARRAY), Copied(w2, ArrayOf(0), ARRAY, 1))
            == Mem([], [[Cells([x]), Ref(2, 0), Cells([0])], [Cells([0]), Cells([y])], [Cells([y])]])
  {
    assert m.arrs[0] + [Ref(2, 0)] == w1.arrs[0];
    assert m.arrs[0 := m.arrs[0] + [Ref(2, 0)]] == w1.arrs;
    assert w1.arrs[0] + [Cells([0])] == w2.arrs[0];
    assert w1.arrs[0 := w1.arrs[0] + [Cells([0])]] == w2.arrs;
    assert w2.arrs[1] + [Cells([y])] == [Cells([0]), Cells([y])];
    assert w2.arrs[1 := w2.arrs[1] + [Cells([y])]] == [w2.arrs[0], [Cells([0]), Cells([y])], w2.arrs[2]];
  }

  lemma BindNone(m: Mem, f: Func, args: seq<Arg>)
    requires ReadyFor(m, f, args, 0)
    ensures Bind(m, f, args, 0) == m
  {
  }

  /** A function with parameters b[], a[] and *a[], called with a[] first: b gets the array meant for *a. */
  lemma ClashExample(x: int, y: int)
    ensures Ready(ThreeArrays(x, y), BAA, BAA_ARGS)
    ensures Top(Called(ThreeArrays(x, y), BAA, BAA_ARGS), Param(1, ARRAY)) == Cells([y])
    ensures Expected(ThreeArrays(x, y), BAA, BAA_ARGS, 0) == Cells([x])
  {
    ExampleReady(x, y);
    ExampleSteps(x, y);
    assert BAA.autos[3..] == [];
  }
}
