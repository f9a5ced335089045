/** Runs of bc programs as far as calls and returns go: everything a call pushes, its return takes away. */
module BcCalls {
  import opened BcMemory
  import opened BcBinding

  datatype Frame = Frame(func: nat, len: nat)

  /** `saved` holds, for each of ibase, obase and scale, the values outer calls will get back. */
  datatype State = State(mem: Mem, results: seq<Arg>, frames: seq<Frame>, globals: seq<int>, saved: seq<seq<int>>)

  /** How a function ends: with a value, without one, or as a void function. */
  datatype Ending = RET | RET0 | RET_VOID

  // -------------------------------------------------------------------- popping

  function Pop(m: Mem, p: Param): Mem {
    if Has(m, p) && At(m, p) != [] then Put(m, p, At(m, p)[..|At(m, p)| - 1]) else m
  }

  function PopAll(m: Mem, autos: seq<Param>): Mem
    decreases |autos|
  {
    if autos == [] then m else PopAll(Pop(m, autos[0]), autos[1..])
  }

  lemma PopPush(m: Mem, p: Param, x: Slot)
    requires Has(m, p)
    ensures Pop(Push(m, p, x), p) == m
  {
    var s := At(m, p);
    assert (s + [x])[..|s|] == s;
    if p.kind == VAR {
      assert m.vars[p.loc := s + [x]][p.loc := s] == m.vars;
    } else {
      assert m.arrs[p.loc := s + [x]][p.loc := s] == m.arrs;
    }
  }

  /** Pops of different stacks commute, and so do pops of the same one. */
  lemma PopSwap(m: Mem, p: Param, q: Param)
    ensures Pop(Pop(m, p), q) == Pop(Pop(m, q), p)
  {
    if Has(m, p) && Has(m, q) && !Same(p, q) && At(m, p) != [] && At(m, q) != [] {
      var x, y := At(m, p)[..|At(m, p)| - 1], At(m, q)[..|At(m, q)| - 1];
      if p.kind == VAR && q.kind == VAR {
        PopTwo(m.vars, p.loc, q.loc, x, y);
      } else if p.kind != VAR && q.kind != VAR {
        PopTwo(m.arrs, p.loc, q.loc, x, y);
      }
    }
  }

  lemma PopTwo(s: seq<seq<Slot>>, i: nat, j: nat, x: seq<Slot>, y: seq<Slot>)
    requires i < |s| && j < |s| && i != j
    ensures s[i := x][j := y] == s[j := y][i := x]
  {
  }

  lemma {:induction false} PopAllLast(m: Mem, autos: seq<Param>, p: Param)
    ensures PopAll(m, autos + [p]) == PopAll(Pop(m, p), autos)
    decreases |autos|
  {
    hide Pop;
    if autos == [] {
      assert autos + [p] == [p] && [p][1..] == [];
    } else {
      assert (autos + [p])[1..] == autos[1..] + [p];
      PopAllLast(Pop(m, autos[0]), autos[1..], p);
      PopSwap(m, autos[0], p);
    }
  }

  lemma {:induction false} PopAllSplit(m: Mem, a: seq<Param>, b: seq<Param>)
    ensures PopAll(m, a + b) == PopAll(PopAll(m, b), a)
    decreases |b|
  {
    hide Pop;
    if b == [] {
      assert a + b == a;
    } else {
      var n := |b|;
      assert a + b == (a + b[..n - 1]) + [b[n - 1]] && b == b[..n - 1] + [b[n - 1]];
      PopAllLast(m, a + b[..n - 1], b[n - 1]);
      PopAllLast(m, b[..n - 1], b[n - 1]);
      PopAllSplit(Pop(m, b[n - 1]), a, b[..n - 1]);
    }
  }

  lemma {:induction false} PopLocals(m: Mem, autos: seq<Param>)
    requires Typed(m) && forall i :: 0 <= i < |autos| ==> Has(m, autos[i])
    ensures PopAll(Locals(m, autos), autos) == m
    decreases |autos|
  {
    hide Pop, Push, Typed, Grown, PopAll;
    if autos != [] {
      var n := |autos|;
      var w := Locals(m, autos[..n - 1]);
      GrownHas(m, w, autos[n - 1]);
      PopPush(w, autos[n - 1], Initial(autos[n - 1].kind));
      assert autos == autos[..n - 1] + [autos[n - 1]];
      PopAllLast(Locals(m, autos), autos[..n - 1], autos[n - 1]);
      PopLocals(m, autos[..n - 1]);
    } else {
      PopAllNone(m);
    }
  }

  lemma PopAllNone(m: Mem)
    ensures PopAll(m, []) == m
  {
  }

  lemma PopAllFirst(m: Mem, p: Param, rest: seq<Param>)
    ensures PopAll(m, [p] + rest) == PopAll(Pop(m, p), rest)
  {
    assert ([p] + rest)[1..] == rest;
  }

  lemma {:induction false} PopBind(m: Mem, f: Func, args: seq<Arg>, i: nat)
    requires ReadyFor(m, f, args, i) && i <= f.nparams
    ensures PopAll(Bind(m, f, args, i), f.autos[f.nparams - i..f.nparams]) == m
    decreases i
  {
    hide Pop, Push, Typed, PopAll, Partly, Copied, FuncOk, Seen, ArgFits, Grown, Bind;
    if i > 0 {
      var w, p := Bind(m, f, args, i - 1), f.autos[f.nparams - i];
      BindStep(m, f, args, i - 1, w);
      var a := args[f.nparams - i];
      PopPush(w, p, Copied(w, a, p.kind, Back(f, i - 1, a)));
      PopAllFirst(Bind(m, f, args, i), p, f.autos[f.nparams - i + 1..f.nparams]);
      assert f.autos[f.nparams - i..f.nparams] == [p] + f.autos[f.nparams - i + 1..f.nparams];
      PopBind(m, f, args, i - 1);
    } else {
      assert f.autos[f.nparams..f.nparams] == [];
      BindNone(m, f, args);
      PopAllNone(m);
    }
  }

  /** Taking away every auto variable of a function undoes the call. */
  lemma PopCalled(m: Mem, f: Func, args: seq<Arg>)
    requires Ready(m, f, args)
    ensures PopAll(Called(m, f, args), f.autos) == m
  {
    hide PopAll, Bind, Locals, FuncOk, Typed;
    var a, b := f.autos[..f.nparams], f.autos[f.nparams..];
    assert f.autos == a + b;
    PopAllSplit(Called(m, f, args), a, b);
    PopLocals(Bind(m, f, args, f.nparams), b);
    PopBind(m, f, args, f.nparams);
    assert f.autos[f.nparams - f.nparams..f.nparams] == a;
  }

  // ------------------------------------------------------ what a callee can change

  /** Entries that assignments cannot tell apart: a number or array may get new contents, a reference stays. */
  predicate Like(x: Slot, y: Slot) {
    (x.Number? && y.Number?) || (x.Cells? && y.Cells?) || x == y
  }

  ghost predicate StackLike(s: seq<Slot>, t: seq<Slot>) {
    |s| == |t| && forall j :: 0 <= j < |s| ==> Like(s[j], t[j])
  }

  /** Only the top entry differs, and not in its type. */
  ghost predicate TopOnly(s: seq<Slot>, t: seq<Slot>) {
    |s| == |t| && (s == t || (s[..|s| - 1] == t[..|t| - 1] && Like(s[|s| - 1], t[|t| - 1])))
  }

  /** Stacks are as deep as before; variables differ at most on top, and those in `kept` not at all. */
  ghost predicate Near(m: Mem, w: Mem, kept: set<nat>) {
    |m.vars| == |w.vars| && |m.arrs| == |w.arrs|
    && (forall l :: 0 <= l < |m.vars| ==> TopOnly(m.vars[l], w.vars[l]) && (l in kept ==> m.vars[l] == w.vars[l]))
    && (forall l :: 0 <= l < |m.arrs| ==> StackLike(m.arrs[l], w.arrs[l]))
  }

  lemma NearSame(m: Mem, kept: set<nat>)
    ensures Near(m, m, kept)
  {
  }

  lemma NearTwice(a: Mem, b: Mem, c: Mem, kept: set<nat>)
    requires Near(a, b, kept) && Near(b, c, kept)
    ensures Near(a, c, kept)
  {
  }

  lemma NearPop(m: Mem, w: Mem, kept: set<nat>, p: Param)
    requires Near(m, w, kept)
    ensures Near(Pop(m, p), Pop(w, p), kept + if p.kind == VAR then {p.loc} else {})
  {
  }

  function VarLocs(autos: seq<Param>): set<nat> {
    set i | 0 <= i < |autos| && autos[i].kind == VAR :: autos[i].loc
  }

  lemma NearFewer(m: Mem, w: Mem, kept: set<nat>, fewer: set<nat>)
    requires Near(m, w, kept) && fewer <= kept
    ensures Near(m, w, fewer)
  {
  }

  lemma {:induction false} NearPopAll(m: Mem, w: Mem, kept: set<nat>, autos: seq<Param>)
    requires Near(m, w, kept)
    ensures Near(PopAll(m, autos), PopAll(w, autos), kept + VarLocs(autos))
    decreases |autos|
  {
    hide Near, Pop;
    if autos != [] {
      var more := kept + if autos[0].kind == VAR then {autos[0].loc} else {};
      NearPop(m, w, kept, autos[0]);
      NearPopAll(Pop(m, autos[0]), Pop(w, autos[0]), more, autos[1..]);
      VarLocsFirst(autos);
      assert more + VarLocs(autos[1..]) == kept + VarLocs(autos);
    } else {
      assert kept + VarLocs(autos) == kept;
    }
  }

  lemma VarLocsFirst(autos: seq<Param>)
    requires autos != []
    ensures VarLocs(autos) == (if autos[0].kind == VAR then {autos[0].loc} else {}) + VarLocs(autos[1..])
  {
    forall x | x in VarLocs(autos) ensures x in (if autos[0].kind == VAR then {autos[0].loc} else {}) + VarLocs(autos[1..]) {
      var i :| 0 <= i < |autos| && autos[i].kind == VAR && autos[i].loc == x;
      if i > 0 { assert autos[1..][i - 1] == autos[i]; }
    }
  }

  // ------------------------------------------------------------------------ steps

  /** Memory as it was below the given frames. */
  function Unwind(fns: seq<Func>, m: Mem, frames: seq<Frame>): Mem
    decreases |frames|
  {
    if frames == [] then m
    else
      var k := frames[|frames| - 1].func;
      Unwind(fns, if k < |fns| then PopAll(m, fns[k].autos) else m, frames[..|frames| - 1])
  }

  function Tops(saved: seq<seq<int>>): seq<int> {
    seq(|saved|, i requires 0 <= i < |saved| => if saved[i] == [] then 0 else saved[i][|saved[i]| - 1])
  }

  function PushEach(saved: seq<seq<int>>, values: seq<int>): seq<seq<int>>
    requires |saved| == |values|
  {
    seq(|saved|, i requires 0 <= i < |saved| => saved[i] + [values[i]])
  }

  function PopEach(saved: seq<seq<int>>): seq<seq<int>> {
    seq(|saved|, i requires 0 <= i < |saved| => if saved[i] == [] then [] else saved[i][..|saved[i]| - 1])
  }

  /** The current globals are the topmost saved ones. */
  predicate GlobalsOk(s: State) {
    s.globals == Tops(s.saved) && forall i :: 0 <= i < |s.saved| ==> s.saved[i] != []
  }

  function ArgsOf(s: State, f: Func): seq<Arg>
    requires f.nparams <= |s.results|
  {
    s.results[|s.results| - f.nparams..]
  }

  ghost predicate CanCall(fns: seq<Func>, s: State, k: nat) {
    k < |fns| && fns[k].defined && fns[k].nparams <= |s.results| && Ready(s.mem, fns[k], ArgsOf(s, fns[k])) && GlobalsOk(s)
  }

  /** The state after bc_program_call; `shield` says whether globals are saved across calls. */
  ghost function AfterCall(fns: seq<Func>, shield: bool, s: State, k: nat): State
    requires CanCall(fns, s, k)
  {
    var len := |s.results| - fns[k].nparams;
    State(Called(s.mem, fns[k], ArgsOf(s, fns[k])), s.results[..len], s.frames + [Frame(k, len)], s.globals,
          if shield then PushEach(s.saved, s.globals) else s.saved)
  }

  function FrameOf(s: State): Frame
    requires s.frames != []
  {
    s.frames[|s.frames| - 1]
  }

  /** The operand of a return statement as a number. */
  predicate HasValue(m: Mem, a: Arg) {
    a.Temp? || (a.VarOf? && a.loc < |m.vars| && m.vars[a.loc] != [] && m.vars[a.loc][|m.vars[a.loc]| - 1].Number?)
  }

  function ValueOf(m: Mem, a: Arg): int
    requires HasValue(m, a)
  {
    if a.Temp? then a.n else m.vars[a.loc][|m.vars[a.loc]| - 1].n
  }

  predicate CanReturn(fns: seq<Func>, s: State, e: Ending) {
    s.frames != [] && FrameOf(s).func < |fns| && FrameOf(s).len <= |s.results|
    && (e == RET ==> FrameOf(s).len < |s.results| && HasValue(s.mem, s.results[|s.results| - 1]))
  }

  /** The one result a return leaves. */
  function Outcome(s: State, e: Ending): Arg
    requires e == RET ==> s.results != [] && HasValue(s.mem, s.results[|s.results| - 1])
  {
    match e
    case RET => Temp(ValueOf(s.mem, s.results[|s.results| - 1]))
    case RET0 => Temp(0)
    case RET_VOID => Void
  }

  /** The state after bc_program_return. */
  function AfterReturn(fns: seq<Func>, shield: bool, s: State, e: Ending): State
    requires CanReturn(fns, s, e)
  {
    var saved := if shield then PopEach(s.saved) else s.saved;
    State(PopAll(s.mem, fns[FrameOf(s).func].autos), s.results[..FrameOf(s).len] + [Outcome(s, e)],
          s.frames[..|s.frames| - 1], if shield then Tops(saved) else s.globals, saved)
  }

  /** A return takes away its own results and leaves one: the number on top of them or the newest value of the
      variable on top, 0, or nothing to use. */
  lemma ReturnLeaves(fns: seq<Func>, shield: bool, s: State, e: Ending)
    requires CanReturn(fns, s, e)
    ensures var t, n := AfterReturn(fns, shield, s, e), FrameOf(s).len;
            n <= |s.results| && |t.results| == n + 1 && t.results[..n] == s.results[..n]
            && (e == RET0 ==> t.results[n] == Temp(0))
            && (e == RET_VOID ==> t.results[n] == Void)
            && (e == RET ==> n < |s.results|
                             && match s.results[|s.results| - 1]
                                case Temp(x) => t.results[n] == Temp(x)
                                case VarOf(l) => l < |s.mem.vars| && s.mem.vars[l] != []
                                                 && s.mem.vars[l][|s.mem.vars[l]| - 1] == Number(t.results[n].n)
                                                 && t.results[n].Temp?
                                case _ => false)
  {
    hide PopAll, Tops, PopEach;
  }

  /** Any other instruction: it may assign to the names in scope and use the results above its frame. */
  ghost predicate Work(s: State, t: State) {
    s.frames != [] && t.frames == s.frames && Near(s.mem, t.mem, {})
    && FrameOf(s).len <= |s.results| && FrameOf(s).len <= |t.results|
    && t.results[..FrameOf(s).len] == s.results[..FrameOf(s).len]
    && GlobalsOk(s) && GlobalsOk(t) && |s.saved| == |t.saved| && PopEach(s.saved) == PopEach(t.saved)
  }

  ghost predicate Step(fns: seq<Func>, shield: bool, s: State, t: State) {
    Work(s, t)
    || (exists k: nat :: CanCall(fns, s, k) && t == AfterCall(fns, shield, s, k))
    || (exists e: Ending :: CanReturn(fns, s, e) && t == AfterReturn(fns, shield, s, e))
  }

  // -------------------------------------------------------------- inside one call

  /** What holds of every state between a call of k from s0 and its return. */
  ghost predicate Inside(fns: seq<Func>, shield: bool, s0: State, k: nat, s: State) {
    k < |fns| && fns[k].nparams <= |s0.results|
    && var n0, len := |s0.frames|, |s0.results| - fns[k].nparams;
    n0 < |s.frames| && s.frames[..n0] == s0.frames && s.frames[n0] == Frame(k, len)
    && (forall i :: n0 <= i < |s.frames| ==> len <= s.frames[i].len)
    && len <= |s.results| && s.results[..len] == s0.results[..len]
    && Near(s0.mem, Unwind(fns, s.mem, s.frames[n0..]), VarLocs(fns[k].autos))
    && (shield ==> Shielded(s0.saved, s.saved, |s.frames| - n0))
  }

  /** The outer values of the globals lie untouched below those saved since. */
  predicate Shielded(saved0: seq<seq<int>>, saved: seq<seq<int>>, depth: int) {
    |saved| == |saved0|
    && forall i :: 0 <= i < |saved| ==> |saved[i]| == |saved0[i]| + depth && |saved0[i]| <= |saved[i]| && saved[i][..|saved0[i]|] == saved0[i]
  }

  lemma UnwindOne(fns: seq<Func>, m: Mem, frames: seq<Frame>, fr: Frame)
    requires fr.func < |fns|
    ensures Unwind(fns, m, frames + [fr]) == Unwind(fns, PopAll(m, fns[fr.func].autos), frames)
  {
    assert (frames + [fr])[..|frames|] == frames;
  }

  /** Work in the innermost call leaves what lies below the outermost one alone. */
  lemma {:induction false} NearUnwind(fns: seq<Func>, m: Mem, w: Mem, kept: set<nat>, frames: seq<Frame>)
    requires Near(m, w, kept)
    ensures Near(Unwind(fns, m, frames), Unwind(fns, w, frames), kept)
    ensures frames != [] && frames[0].func < |fns| ==>
              Near(Unwind(fns, m, frames), Unwind(fns, w, frames), kept + VarLocs(fns[frames[0].func].autos))
    decreases |frames|
  {
    hide Near, PopAll;
    if frames != [] {
      var n, k := |frames|, frames[|frames| - 1].func;
      if k < |fns| {
        var more := kept + VarLocs(fns[k].autos);
        NearPopAll(m, w, kept, fns[k].autos);
        NearUnwind(fns, PopAll(m, fns[k].autos), PopAll(w, fns[k].autos), more, frames[..n - 1]);
        NearFewer(Unwind(fns, m, frames), Unwind(fns, w, frames), more, kept);
        if n > 1 && frames[0].func < |fns| {
          assert frames[..n - 1][0] == frames[0];
          var all := more + VarLocs(fns[frames[0].func].autos);
          NearFewer(Unwind(fns, m, frames), Unwind(fns, w, frames), all, kept + VarLocs(fns[frames[0].func].autos));
        }
      } else {
        NearUnwind(fns, m, w, kept, frames[..n - 1]);
        if n > 1 { assert frames[..n - 1][0] == frames[0]; }
      }
    }
  }

  lemma CallEnters(fns: seq<Func>, shield: bool, s: State, k: nat)
    requires CanCall(fns, s, k)
    ensures Inside(fns, shield, s, k, AfterCall(fns, shield, s, k))
  {
    hide Near, PopAll, Called, Ready, VarLocs;
    var t, fr := AfterCall(fns, shield, s, k), Frame(k, |s.results| - fns[k].nparams);
    assert t.frames[|s.frames|..] == [] + [fr];
    UnwindOne(fns, t.mem, [], fr);
    PopCalled(s.mem, fns[k], ArgsOf(s, fns[k]));
    NearSame(s.mem, VarLocs(fns[k].autos));
  }

  lemma WorkStays(fns: seq<Func>, shield: bool, s0: State, k: nat, s: State, t: State)
    requires Inside(fns, shield, s0, k, s) && Work(s, t)
    ensures Inside(fns, shield, s0, k, t)
  {
    hide Near, PopAll, VarLocs, Unwind, GlobalsOk, PopEach, Shielded;
    var n0 := |s0.frames|;
    var frames := s.frames[n0..];
    NearUnwind(fns, s.mem, t.mem, {}, frames);
    assert {} + VarLocs(fns[k].autos) == VarLocs(fns[k].autos);
    NearTwice(s0.mem, Unwind(fns, s.mem, frames), Unwind(fns, t.mem, frames), VarLocs(fns[k].autos));
    var len := |s0.results| - fns[k].nparams;
    assert t.results[..len] == t.results[..FrameOf(s).len][..len];
    assert s.results[..len] == s.results[..FrameOf(s).len][..len];
    if shield { ShieldedWork(s0.saved, s.saved, t.saved, |s.frames| - n0, s, t); }
  }

  lemma ShieldedWork(saved0: seq<seq<int>>, saved: seq<seq<int>>, now: seq<seq<int>>, depth: int, s: State, t: State)
    requires Shielded(saved0, saved, depth) && depth > 0 && |saved| == |now| && PopEach(saved) == PopEach(now)
    requires saved == s.saved && now == t.saved && GlobalsOk(s) && GlobalsOk(t)
    ensures Shielded(saved0, now, depth)
  {
    forall i | 0 <= i < |now|
      ensures |now[i]| == |saved0[i]| + depth && |saved0[i]| <= |now[i]| && now[i][..|saved0[i]|] == saved0[i]
    {
      assert PopEach(saved)[i] == PopEach(now)[i];
      assert saved[i] != [] && now[i] != [];
      assert now[i][..|now[i]| - 1][..|saved0[i]|] == saved[i][..|saved[i]| - 1][..|saved0[i]|];
    }
  }

  lemma CallStays(fns: seq<Func>, shield: bool, s0: State, k: nat, s: State, j: nat)
    requires Inside(fns, shield, s0, k, s) && CanCall(fns, s, j) && FrameOf(s).len <= |s.results| - fns[j].nparams
    ensures Inside(fns, shield, s0, k, AfterCall(fns, shield, s, j))
  {
    hide Near, PopAll, VarLocs, Unwind, Called, Ready, Tops;
    var n0, t, fr := |s0.frames|, AfterCall(fns, shield, s, j), Frame(j, |s.results| - fns[j].nparams);
    assert t.frames[n0..] == s.frames[n0..] + [fr];
    UnwindOne(fns, t.mem, s.frames[n0..], fr);
    PopCalled(s.mem, fns[j], ArgsOf(s, fns[j]));
    var len := |s0.results| - fns[k].nparams;
    assert t.frames[..n0] == s.frames[..n0];
    assert t.results[..len] == s.results[..len];
  }

  lemma ReturnStays(fns: seq<Func>, shield: bool, s0: State, k: nat, s: State, e: Ending)
    requires Inside(fns, shield, s0, k, s) && CanReturn(fns, s, e) && |s.frames| > |s0.frames| + 1
    ensures Inside(fns, shield, s0, k, AfterReturn(fns, shield, s, e))
  {
    hide Near, PopAll, VarLocs, Unwind, Tops, Outcome;
    var n0, t, fr := |s0.frames|, AfterReturn(fns, shield, s, e), FrameOf(s);
    assert s.frames[n0..] == t.frames[n0..] + [fr];
    UnwindOne(fns, s.mem, t.frames[n0..], fr);
    var len := |s0.results| - fns[k].nparams;
    assert t.frames[..n0] == s.frames[..n0];
    assert t.results[..len] == s.results[..len];
  }

  /** What the caller finds after the return: its stacks as deep as before and no deeper entry changed, the
      callee's variables exactly as they were, its other results, and one new result. */
  ghost predicate Restored(fns: seq<Func>, shield: bool, s0: State, k: nat, t: State) {
    k < |fns| && fns[k].nparams <= |s0.results|
    && Near(s0.mem, t.mem, VarLocs(fns[k].autos)) && t.frames == s0.frames
    && (exists r: Arg :: t.results == s0.results[..|s0.results| - fns[k].nparams] + [r])
    && (shield ==> t.saved == s0.saved && t.globals == Tops(s0.saved))
  }

  lemma ReturnRestores(fns: seq<Func>, shield: bool, s0: State, k: nat, s: State, e: Ending)
    requires Inside(fns, shield, s0, k, s) && CanReturn(fns, s, e) && |s.frames| == |s0.frames| + 1
    ensures Restored(fns, shield, s0, k, AfterReturn(fns, shield, s, e))
  {
    hide Near, PopAll, VarLocs, Unwind, Tops, Outcome;
    var n0, t, fr := |s0.frames|, AfterReturn(fns, shield, s, e), FrameOf(s);
    assert s.frames[n0..] == [] + [fr];
    UnwindOne(fns, s.mem, [], fr);
    UnwindNone(fns, t.mem);
    assert t.frames == s.frames[..n0];
    assert t.results == s0.results[..|s0.results| - fns[k].nparams] + [Outcome(s, e)];
    if shield { assert t.saved == s0.saved; }
  }

  lemma UnwindNone(fns: seq<Func>, m: Mem)
    ensures Unwind(fns, m, []) == m
  {
  }

  // ------------------------------------------------------------------- whole runs

  /** Calls take their arguments from what their own function put on the result stack. */
  ghost predicate OwnArgs(fns: seq<Func>, s: State, t: State) {
    |t.frames| > |s.frames| && s.frames != [] ==> FrameOf(s).len <= FrameOf(t).len
  }

  ghost predicate IsRun(fns: seq<Func>, shield: bool, run: seq<State>) {
    forall i :: 0 <= i < |run| - 1 ==> Step(fns, shield, run[i], run[i + 1]) && OwnArgs(fns, run[i], run[i + 1])
  }

  lemma StepStays(fns: seq<Func>, shield: bool, s0: State, k: nat, s: State, t: State)
    requires Inside(fns, shield, s0, k, s) && Step(fns, shield, s, t) && OwnArgs(fns, s, t)
    ensures |t.frames| > |s0.frames| ==> Inside(fns, shield, s0, k, t)
    ensures |t.frames| <= |s0.frames| ==> Restored(fns, shield, s0, k, t)
  {
    hide Inside, Restored, Work, AfterReturn, Called, Ready, CanReturn;
    InsideFrames(fns, shield, s0, k, s);
    if Work(s, t) {
      WorkStays(fns, shield, s0, k, s, t);
      WorkFrames(s, t);
    } else if j: nat :| CanCall(fns, s, j) && t == AfterCall(fns, shield, s, j) {
      CallStays(fns, shield, s0, k, s, j);
    } else {
      var e: Ending :| CanReturn(fns, s, e) && t == AfterReturn(fns, shield, s, e);
      ReturnFrames(fns, shield, s, e);
      if |s.frames| == |s0.frames| + 1 { ReturnRestores(fns, shield, s0, k, s, e); } else { ReturnStays(fns, shield, s0, k, s, e); }
    }
  }

  lemma InsideFrames(fns: seq<Func>, shield: bool, s0: State, k: nat, s: State)
    requires Inside(fns, shield, s0, k, s)
    ensures |s.frames| > |s0.frames|
  {
  }

  lemma WorkFrames(s: State, t: State)
    requires Work(s, t)
    ensures t.frames == s.frames
  {
  }

  lemma ReturnFrames(fns: seq<Func>, shield: bool, s: State, e: Ending)
    requires CanReturn(fns, s, e)
    ensures |AfterReturn(fns, shield, s, e).frames| == |s.frames| - 1
  {
  }

  lemma {:induction false} RunInside(fns: seq<Func>, shield: bool, run: seq<State>, k: nat, i: nat)
    requires IsRun(fns, shield, run) && 0 < i < |run|
    requires CanCall(fns, run[0], k) && run[1] == AfterCall(fns, shield, run[0], k)
    requires forall j :: 0 < j <= i ==> |run[j].frames| > |run[0].frames|
    ensures Inside(fns, shield, run[0], k, run[i])
  {
    hide Inside, Step, AfterCall, CanCall, Restored;
    if i == 1 {
      CallEnters(fns, shield, run[0], k);
    } else {
      RunInside(fns, shield, run, k, i - 1);
      StepStays(fns, shield, run[0], k, run[i - 1], run[i]);
    }
  }

  /** Over any run from a call to its return, whatever is called in between, the caller's stacks are restored. */
  lemma Balanced(fns: seq<Func>, shield: bool, run: seq<State>, k: nat)
    requires IsRun(fns, shield, run) && |run| > 2
    requires CanCall(fns, run[0], k) && run[1] == AfterCall(fns, shield, run[0], k)
    requires forall j :: 0 < j < |run| - 1 ==> |run[j].frames| > |run[0].frames|
    requires |run[|run| - 1].frames| <= |run[0].frames|
    ensures Restored(fns, shield, run[0], k, run[|run| - 1])
    ensures shield ==> run[|run| - 1].globals == run[0].globals
  {
    hide Inside, Step, AfterCall, CanCall, Restored;
    RunInside(fns, shield, run, k, |run| - 2);
    StepStays(fns, shield, run[0], k, run[|run| - 2], run[|run| - 1]);
    GlobalsBack(fns, shield, run[0], k, run[|run| - 1]);
  }

  lemma GlobalsBack(fns: seq<Func>, shield: bool, s0: State, k: nat, t: State)
    requires CanCall(fns, s0, k) && Restored(fns, shield, s0, k, t)
    ensures shield ==> t.globals == s0.globals
  {
  }

  // ------------------------------------------------------------ no dangling references

  /** Memory is well typed now and will be again after every pending return. */
  ghost predicate Safe(fns: seq<Func>, m: Mem, frames: seq<Frame>)
    decreases |frames|
  {
    Typed(m)
    && (frames != [] ==>
          var k := frames[|frames| - 1].func;
          k < |fns| && Safe(fns, PopAll(m, fns[k].autos), frames[..|frames| - 1]))
  }

  lemma NearTyped(m: Mem, w: Mem, kept: set<nat>)
    requires Typed(m) && Near(m, w, kept)
    ensures Typed(w)
  {
    forall l, j | 0 <= l < |w.vars| && 0 <= j < |w.vars[l]| ensures SlotOk(w, false, w.vars[l][j]) { NearSlot(m, w, kept, false, l, j); }
    forall l, j | 0 <= l < |w.arrs| && 0 <= j < |w.arrs[l]| ensures SlotOk(w, true, w.arrs[l][j]) { NearSlot(m, w, kept, true, l, j); }
  }

  lemma NearSlot(m: Mem, w: Mem, kept: set<nat>, isArr: bool, l: nat, j: nat)
    requires Typed(m) && Near(m, w, kept)
    requires l < |if isArr then w.arrs else w.vars| && j < |(if isArr then w.arrs else w.vars)[l]|
    ensures SlotOk(w, isArr, (if isArr then w.arrs else w.vars)[l][j])
  {
    TypedAt(m, isArr, l, j);
    if isArr {
      var x := m.arrs[l][j];
      assert Like(x, w.arrs[l][j]);
      if x.Ref? { assert Like(m.arrs[x.loc][x.pos], w.arrs[x.loc][x.pos]); }
    } else if j < |m.vars[l]| - 1 {
      assert w.vars[l][j] == w.vars[l][..|w.vars[l]| - 1][j];
      assert m.vars[l][j] == m.vars[l][..|m.vars[l]| - 1][j];
    }
  }

  lemma {:induction false} NearSafe(fns: seq<Func>, m: Mem, w: Mem, kept: set<nat>, frames: seq<Frame>)
    requires Safe(fns, m, frames) && Near(m, w, kept)
    ensures Safe(fns, w, frames)
    decreases |frames|
  {
    hide Near, Typed, PopAll;
    NearTyped(m, w, kept);
    if frames != [] {
      var k := frames[|frames| - 1].func;
      NearPopAll(m, w, kept, fns[k].autos);
      NearSafe(fns, PopAll(m, fns[k].autos), PopAll(w, fns[k].autos), kept + VarLocs(fns[k].autos), frames[..|frames| - 1]);
    }
  }

  lemma SafeCall(fns: seq<Func>, shield: bool, s: State, k: nat)
    requires Safe(fns, s.mem, s.frames) && CanCall(fns, s, k)
    ensures Safe(fns, AfterCall(fns, shield, s, k).mem, AfterCall(fns, shield, s, k).frames)
  {
    hide Typed, PopAll, Ready, Bind;
    var t := AfterCall(fns, shield, s, k);
    assert t.frames[..|t.frames| - 1] == s.frames;
    PopCalled(s.mem, fns[k], ArgsOf(s, fns[k]));
    CalledTyped(s.mem, fns[k], ArgsOf(s, fns[k]));
  }

  lemma CalledTyped(m: Mem, f: Func, args: seq<Arg>)
    requires Ready(m, f, args)
    ensures Typed(Called(m, f, args))
  {
  }

  /** In every run no stack is ever popped empty and every reference names cells, at every depth of calls. */
  lemma StepSafe(fns: seq<Func>, shield: bool, s: State, t: State)
    requires Safe(fns, s.mem, s.frames) && Step(fns, shield, s, t)
    ensures Safe(fns, t.mem, t.frames)
  {
    hide Near, PopAll, Typed, CanCall;
    if Work(s, t) {
      NearSafe(fns, s.mem, t.mem, {}, s.frames);
    } else if k: nat :| CanCall(fns, s, k) && t == AfterCall(fns, shield, s, k) {
      SafeCall(fns, shield, s, k);
    }
  }

  lemma {:induction false} RunSafe(fns: seq<Func>, shield: bool, run: seq<State>, i: nat)
    requires IsRun(fns, shield, run) && i < |run| && Safe(fns, run[0].mem, run[0].frames)
    ensures Safe(fns, run[i].mem, run[i].frames)
  {
    hide Step, Safe, OwnArgs;
    if i > 0 {
      RunSafe(fns, shield, run, i - 1);
      StepSafe(fns, shield, run[i - 1], run[i]);
    }
  }
}
