/** bc's call and return instructions on the interpreter's stacks. */
module BcVm {
  import opened BcMemory
  import opened BcBinding
  import opened BcCalls

  /** Names on the result stack are names of the program. */
  ghost predicate Located(m: Mem, results: seq<Arg>) {
    forall i :: 0 <= i < |results| && IsName(results[i]) ==> Has(m, Place(results[i]))
  }

  ghost predicate Declared(m: Mem, autos: seq<Param>) {
    forall i :: 0 <= i < |autos| ==> Has(m, autos[i])
  }

  /** Each global loses its newest saved value and takes the one below. */
  predicate Regained(before: seq<seq<int>>, saved: seq<seq<int>>, globals: seq<int>) {
    |globals| == |saved| == |before|
    && forall i :: 0 <= i < |saved| ==>
         |before[i]| > 1 && saved[i] == before[i][..|before[i]| - 1] && globals[i] == before[i][|before[i]| - 2]
  }

  lemma LocatedAt(m: Mem, results: seq<Arg>, i: nat)
    requires Located(m, results) && i < |results|
    ensures IsName(results[i]) ==> Has(m, Place(results[i]))
  {
  }

  class Vm {
    var vars: seq<seq<Slot>>
    var arrs: seq<seq<Slot>>
    var results: seq<Arg>
    var frames: seq<Frame>
    var globals: seq<int>
    var saved: seq<seq<int>>

    ghost function Memory(): Mem
      reads this`vars, this`arrs
    {
      Mem(vars, arrs)
    }

    ghost function Now(): State
      reads this
    {
      State(Memory(), results, frames, globals, saved)
    }

    /** bc_program_copyToVar: the top result becomes a new entry of p's stack. `last` says that the argument's
        own stack has not been pushed on in this call. */
    method CopyToVar(p: Param, last: bool) returns (ok: bool)
      requires results != [] && !results[|results| - 1].Void?
      requires Typed(Memory()) && Has(Memory(), p)
      requires var a := results[|results| - 1];
               IsName(a) ==> Has(Memory(), Place(a)) && (last || |At(Memory(), Place(a))| > 1)
      modifies this`vars, this`arrs, this`results
      ensures ok <==> ArgFits(old(Memory()), old(results)[|old(results)| - 1], p.kind)
      ensures ok ==> results == old(results)[..|old(results)| - 1]
      ensures ok ==> CanBeCopied(old(Memory()), old(results)[|old(results)| - 1], p.kind, if last then 0 else 1)
                     && Memory() == Push(old(Memory()), p, Copied(old(Memory()), old(results)[|old(results)| - 1], p.kind, if last then 0 else 1))
      ensures ok && old(results)[|old(results)| - 1].Temp? ==>
                (p.loc < |old(vars)| && arrs == old(arrs)
                 && vars == old(vars)[p.loc := old(vars)[p.loc] + [Number(old(results)[|old(results)| - 1].n)]])
      ensures ok && old(results)[|old(results)| - 1].VarOf? ==>
                (p.loc < |old(vars)| && arrs == old(arrs)
                 && var s := old(vars)[old(results)[|old(results)| - 1].loc];
                    vars == old(vars)[p.loc := old(vars)[p.loc] + [s[|s| - (if last then 1 else 2)]]])
    {
      var ptr := results[|results| - 1];
      if ptr.ArrayOf? != (p.kind != VAR) { return false; }
      var back := if last then 0 else 1;
      CopyReady(Memory(), ptr, p.kind, back);
      var x: Slot;
      match ptr {
        case Temp(n) => x := Number(n);
        case VarOf(l) => x := vars[l][|vars[l]| - 1 - back];
        case ArrayOf(l) =>
          var v := arrs[l][|arrs[l]| - 1 - back];
          if p.kind == REF {
            x := if v.Cells? then Ref(l, |arrs[l]| - 1 - back) else v;
          } else if v.Ref? {
            x := arrs[v.loc][v.pos];
          } else {
            x := v;
          }
      }
      ok := true;
      if p.kind == VAR { vars := vars[p.loc := vars[p.loc] + [x]]; } else { arrs := arrs[p.loc := arrs[p.loc] + [x]]; }
      results := results[..|results| - 1];
    }

    lemma CopyReady(m: Mem, a: Arg, kind: Kind, back: nat)
      requires Typed(m) && !a.Void? && a.ArrayOf? == (kind != VAR)
      requires IsName(a) ==> Has(m, Place(a)) && back < |At(m, Place(a))|
      ensures CanBeCopied(m, a, kind, back)
    {
      CopiedOk(m, a, kind, back);
    }

    /** Whether an earlier parameter of this call was pushed where the argument lives. */
    method NotPushed(f: Func, i: nat, arg: Arg) returns (last: bool)
      requires i <= f.nparams <= |f.autos|
      ensures last <==> Back(f, i, arg) == 0
    {
      last := true;
      if arg.VarOf? || arg.ArrayOf? {
        var j := 0;
        while j < i && last
          invariant j <= i && (last <==> !Seen(f, j, Place(arg)))
          invariant !last ==> Seen(f, i, Place(arg))
        {
          var loc := f.autos[f.nparams - 1 - j];
          SeenOne(f, j, Place(arg));
          SeenMore(f, j + 1, i, Place(arg));
          last := arg.loc != loc.loc || (loc.kind == VAR) != arg.VarOf?;
          j := j + 1;
        }
      }
    }

    lemma SeenMore(f: Func, i: nat, j: nat, p: Param)
      requires i <= j <= f.nparams <= |f.autos|
      ensures Seen(f, i, p) ==> Seen(f, j, p)
    {
    }

    /** One parameter of bc_program_call. */
    method PushParam(f: Func, i: nat, ghost m: Mem, ghost args: seq<Arg>) returns (ok: bool)
      requires ReadyFor(m, f, args, i) && i < f.nparams && Memory() == Bind(m, f, args, i)
      requires results != [] && results[|results| - 1] == args[f.nparams - 1 - i]
      requires IsName(results[|results| - 1]) ==> Has(m, Place(results[|results| - 1]))
      modifies this`vars, this`arrs, this`results
      ensures if ok then ReadyFor(m, f, args, i + 1) else !Ready(m, f, args)
      ensures ok ==> results == old(results)[..|old(results)| - 1] && Memory() == Bind(m, f, args, i + 1)
    {
      hide Typed, FuncOk, Grown, Seen, Push, Copied, ArgFits, Bind, ReadyFor;
      var arg := results[|results| - 1];
      ReadySize(m, f, args, i);
      if arg.Void? { VoidNeverFits(m, f, args, f.nparams - 1 - i); return false; }
      var p := f.autos[f.nparams - 1 - i];
      var last := NotPushed(f, i, arg);
      ParamFits(m, f, args, i, Memory());
      ok := CopyToVar(p, last);
      if ok { BindStep(m, f, args, i, Bind(m, f, args, i)); }
    }

    lemma ReadySize(m: Mem, f: Func, args: seq<Arg>, i: nat)
      requires ReadyFor(m, f, args, i) && i < f.nparams
      ensures |args| == f.nparams <= |f.autos|
    {
    }

    /** The parameters of bc_program_call, last one first. */
    method PushParams(f: Func) returns (ok: bool)
      requires f.nparams <= |results| && Typed(Memory()) && FuncOk(f)
      requires Declared(Memory(), f.autos)
      requires Located(Memory(), results)
      modifies this`vars, this`arrs, this`results
      ensures ok <==> Ready(old(Memory()), f, old(results)[|old(results)| - f.nparams..])
      ensures ok ==> results == old(results)[..|old(results)| - f.nparams]
      ensures ok ==> Memory() == Bind(old(Memory()), f, old(results)[|old(results)| - f.nparams..], f.nparams)
    {
      hide Typed, FuncOk, Bind, ReadyFor, Located, Declared, IsName, Place, Partly, Has;
      ghost var m, args, all := Memory(), results[|results| - f.nparams..], results;
      var i := 0;
      FuncSize(f);
      NoneReady(m, f, args);
      while i < f.nparams
        invariant i <= f.nparams && results == all[..|all| - i]
        invariant ReadyFor(m, f, args, i) && Memory() == Bind(m, f, args, i)
      {
        assert results[|results| - 1] == args[f.nparams - 1 - i] == all[|all| - 1 - i];
        LocatedAt(m, all, |all| - 1 - i);
        ok := PushParam(f, i, m, args);
        if !ok { return; }
        i := i + 1;
      }
      ok := true;
    }

    lemma FuncSize(f: Func)
      requires FuncOk(f)
      ensures f.nparams <= |f.autos|
    {
    }

    lemma NoneReady(m: Mem, f: Func, args: seq<Arg>)
      requires Typed(m) && FuncOk(f) && |args| == f.nparams <= |f.autos| && Declared(m, f.autos)
      ensures ReadyFor(m, f, args, 0) && Bind(m, f, args, 0) == m
    {
    }

    lemma VoidNeverFits(m: Mem, f: Func, args: seq<Arg>, k: nat)
      requires k < |args| && args[k].Void?
      ensures !Ready(m, f, args)
    {
    }
  
    /** The next argument can be looked at; whether it fits is the same in the caller's memory. */
    lemma ParamFits(m: Mem, f: Func, args: seq<Arg>, i: nat, w: Mem)
      requires ReadyFor(m, f, args, i) && i < f.nparams && w == Bind(m, f, args, i)
      requires IsName(args[f.nparams - 1 - i]) ==> Has(m, Place(args[f.nparams - 1 - i]))
      ensures Typed(w) && Has(w, f.autos[f.nparams - 1 - i])
      ensures var a := args[f.nparams - 1 - i];
              IsName(a) ==> Has(w, Place(a)) && (Back(f, i, a) == 0 || |At(w, Place(a))| > 1)
      ensures ReadyFor(m, f, args, i + 1) <==> ArgFits(w, args[f.nparams - 1 - i], f.autos[f.nparams - 1 - i].kind)
      ensures !ReadyFor(m, f, args, i + 1) ==> !Ready(m, f, args)
    {
      hide Typed, Grown, Seen, FuncOk, Bind;
      var a, p := args[f.nparams - 1 - i], f.autos[f.nparams - 1 - i];
      if IsName(a) { StillThere(m, f, i, w, Place(a)); }
      GrownHas(m, w, p);
    }

    lemma StillThere(m: Mem, f: Func, i: nat, w: Mem, q: Param)
      requires i <= f.nparams <= |f.autos| && Typed(m) && Has(m, q) && Partly(m, f, i, w)
      ensures Has(w, q) && (Seen(f, i, q) ==> |At(w, q)| > 1)
    {
      GrownHas(m, w, q);
      assert At(m, q) != [];
    }

    method PushInitial(a: Param)
      requires Has(Memory(), a)
      modifies this`vars, this`arrs
      ensures Memory() == Push(old(Memory()), a, Initial(a.kind))
    {
      if a.kind == VAR {
        vars := vars[a.loc := vars[a.loc] + [Number(0)]];
      } else {
        arrs := arrs[a.loc := arrs[a.loc] + [Cells([0])]];
      }
    }

    /** The auto variables of a call that are no parameters. */
    method PushLocals(f: Func)
      requires f.nparams <= |f.autos| && Typed(Memory())
      requires Declared(Memory(), f.autos)
      modifies this`vars, this`arrs
      ensures Memory() == Locals(old(Memory()), f.autos[f.nparams..])
    {
      hide Typed, Grown, Locals, Push, Has;
      ghost var m := Memory();
      var i := f.nparams;
      LocalsNone(m);
      assert f.autos[f.nparams..f.nparams] == [];
      while i < |f.autos|
        invariant f.nparams <= i <= |f.autos| && Memory() == Locals(m, f.autos[f.nparams..i])
      {
        LocalsOne(m, f, i);
        PushInitial(f.autos[i]);
        i := i + 1;
      }
      assert f.autos[f.nparams..|f.autos|] == f.autos[f.nparams..];
    }

    lemma LocalsNone(m: Mem)
      requires Typed(m)
      ensures Locals(m, []) == m
    {
    }

    lemma LocalsOne(m: Mem, f: Func, i: nat)
      requires f.nparams <= i < |f.autos| && Typed(m) && Declared(m, f.autos)
      ensures var w := Locals(m, f.autos[f.nparams..i]);
              Has(w, f.autos[i]) && Locals(m, f.autos[f.nparams..i + 1]) == Push(w, f.autos[i], Initial(f.autos[i].kind))
    {
      var rest, p := f.autos[f.nparams..i], f.autos[i];
      assert f.autos[f.nparams..i + 1] == rest + [p];
      LocalsAdd(m, rest, p);
    }

    lemma LocalsAdd(m: Mem, rest: seq<Param>, p: Param)
      requires Typed(m) && Declared(m, rest + [p])
      ensures Declared(m, rest) && Has(Locals(m, rest), p)
      ensures Locals(m, rest + [p]) == Push(Locals(m, rest), p, Initial(p.kind))
    {
      assert (rest + [p])[..|rest|] == rest && (rest + [p])[|rest|] == p;
      forall i | 0 <= i < |rest| ensures Has(m, rest[i]) { assert rest[i] == (rest + [p])[i]; }
      GrownHas(m, Locals(m, rest), p);
    }

    /** bc_program_prepGlobals. */
    method PrepGlobals()
      requires |saved| == |globals|
      modifies this`saved
      ensures saved == PushEach(old(saved), globals)
    {
      var i := 0;
      while i < |globals|
        invariant i <= |globals| == |saved|
        invariant forall j :: 0 <= j < i ==> saved[j] == old(saved)[j] + [globals[j]]
        invariant forall j :: i <= j < |saved| ==> saved[j] == old(saved)[j]
      {
        saved := saved[i := saved[i] + [globals[i]]];
        i := i + 1;
      }
    }

    /** bc_program_call of function k with the given number of arguments. */
    method Call(fns: seq<Func>, shield: bool, k: nat, nparams: nat) returns (ok: bool)
      requires k < |fns| && FuncOk(fns[k]) && nparams <= |results|
      requires Typed(Memory()) && GlobalsOk(Now())
      requires Declared(Memory(), fns[k].autos)
      requires Located(Memory(), results)
      modifies this
      ensures ok <==> nparams == fns[k].nparams && CanCall(fns, old(Now()), k)
      ensures ok ==> Now() == AfterCall(fns, shield, old(Now()), k)
      ensures ok && NoClash(fns[k].autos) ==> AllBound(old(Memory()), fns[k], old(results)[|old(results)| - nparams..], Memory())
      ensures ok ==> globals == old(globals) && |saved| == |globals| == |old(saved)|
                     && forall i :: 0 <= i < |saved| ==> saved[i] == old(saved)[i] + if shield then [globals[i]] else []
    {
      hide Typed, Located, Declared, Ready, Bind, Locals, FuncOk, AllBound, NoClash;
      var f := fns[k];
      if !f.defined { return false; }
      if nparams != f.nparams { return false; }
      var len := |results| - nparams;
      PrepSizes();
      ghost var s := Now();
      if shield { PrepGlobals(); }
      ok := PushParams(f);
      if !ok { return; }
      BoundMemory(s.mem, f, ArgsOf(s, f));
      PushLocals(f);
      if NoClash(f.autos) { CallBinds(s.mem, f, ArgsOf(s, f)); }
      frames := frames + [Frame(k, len)];
    }

    lemma PrepSizes()
      requires GlobalsOk(Now())
      ensures |saved| == |globals|
    {
    }

    lemma BoundMemory(m: Mem, f: Func, args: seq<Arg>)
      requires Ready(m, f, args)
      ensures f.nparams <= |f.autos| && Typed(Bind(m, f, args, f.nparams))
      ensures Declared(Bind(m, f, args, f.nparams), f.autos)
    {
      forall i | 0 <= i < |f.autos| ensures Has(Bind(m, f, args, f.nparams), f.autos[i]) {
        GrownHas(m, Bind(m, f, args, f.nparams), f.autos[i]);
      }
    }

    method PopOne(a: Param)
      requires Has(Memory(), a) && At(Memory(), a) != []
      modifies this`vars, this`arrs
      ensures Memory() == Pop(old(Memory()), a)
      ensures |vars| == |old(vars)| && |arrs| == |old(arrs)|
    {
      if a.kind == VAR {
        vars := vars[a.loc := vars[a.loc][..|vars[a.loc]| - 1]];
      } else {
        arrs := arrs[a.loc := arrs[a.loc][..|arrs[a.loc]| - 1]];
      }
    }

    /** The auto variables' entries of a returning function. */
    method PopAutos(f: Func)
      requires Typed(PopAll(Memory(), f.autos)) && Declared(Memory(), f.autos)
      modifies this`vars, this`arrs
      ensures Memory() == PopAll(old(Memory()), f.autos)
    {
      var i := 0;
      assert f.autos[0..] == f.autos;
      while i < |f.autos|
        invariant i <= |f.autos|
        invariant Declared(Memory(), f.autos)
        invariant PopAll(Memory(), f.autos[i..]) == PopAll(old(Memory()), f.autos)
      {
        hide Typed;
        var a := f.autos[i];
        assert f.autos[i..] == [a] + f.autos[i + 1..];
        PopAllFirst(Memory(), a, f.autos[i + 1..]);
        NotEmptyYet(Memory(), a, f.autos[i + 1..]);
        PopOne(a);
        i := i + 1;
      }
      assert f.autos[|f.autos|..] == [];
    }

    /** A stack that is empty stays so, and memory with an empty stack is not well typed. */
    lemma {:induction false} StaysEmpty(m: Mem, p: Param, autos: seq<Param>)
      requires Has(m, p) && At(m, p) == []
      ensures Has(PopAll(m, autos), p) && At(PopAll(m, autos), p) == []
      decreases |autos|
    {
      if autos != [] { StaysEmpty(Pop(m, autos[0]), p, autos[1..]); }
    }

    lemma NotEmptyYet(m: Mem, p: Param, rest: seq<Param>)
      requires Has(m, p) && Typed(PopAll(Pop(m, p), rest))
      ensures At(m, p) != []
    {
      if At(m, p) == [] { StaysEmpty(m, p, rest); }
    }

    /** bc_program_return. */
    method Return(fns: seq<Func>, shield: bool, e: Ending)
      requires CanReturn(fns, Now(), e) && Safe(fns, Memory(), frames)
      requires Declared(Memory(), fns[FrameOf(Now()).func].autos)
      requires |globals| == |saved| && (shield ==> forall i :: 0 <= i < |saved| ==> |saved[i]| > 1)
      modifies this
      ensures Now() == AfterReturn(fns, shield, old(Now()), e)
      ensures Safe(fns, Memory(), frames)
      ensures |results| == old(frames)[|old(frames)| - 1].len + 1
      ensures e == RET0 ==> results[|results| - 1] == Temp(0)
      ensures e == RET_VOID ==> results[|results| - 1] == Void
      ensures e == RET ==> (match old(results)[|old(results)| - 1]
                            case Temp(n) => results[|results| - 1] == Temp(n)
                            case VarOf(l) => results[|results| - 1].Temp? && l < |old(vars)| && old(vars)[l] != []
                                             && old(vars)[l][|old(vars)[l]| - 1] == Number(results[|results| - 1].n)
                            case _ => false)
      ensures shield ==> Regained(old(saved), saved, globals)
      ensures !shield ==> globals == old(globals) && saved == old(saved)
    {
      hide Typed, Declared, Safe, PopAll, PopEach, Tops, Regained;
      var ip := frames[|frames| - 1];
      var f := fns[ip.func];
      SafeOnce(fns, Memory(), frames);
      var res := ReturnValue(e);
      PopAutos(f);
      results := results[..ip.len];
      if shield { RestoreGlobals(); }
      results := results + [res];
      frames := frames[..|frames| - 1];
    }

    method ReturnValue(e: Ending) returns (res: Arg)
      requires e == RET ==> results != [] && HasValue(Memory(), results[|results| - 1])
      ensures res == Outcome(Now(), e)
    {
      res := if e == RET_VOID then Void else Temp(0);
      if e == RET {
        var operand := results[|results| - 1];
        res := if operand.Temp? then operand else Temp(vars[operand.loc][|vars[operand.loc]| - 1].n);
      }
    }

    lemma SafeOnce(fns: seq<Func>, m: Mem, frames: seq<Frame>)
      requires Safe(fns, m, frames) && frames != []
      ensures frames[|frames| - 1].func < |fns|
      ensures Typed(PopAll(m, fns[frames[|frames| - 1].func].autos))
      ensures Safe(fns, PopAll(m, fns[frames[|frames| - 1].func].autos), frames[..|frames| - 1])
    {
    }

    /** The end of bc_program_return when globals are shielded. */
    method RestoreGlobals()
      requires |globals| == |saved| && forall i :: 0 <= i < |saved| ==> |saved[i]| > 1
      modifies this`saved, this`globals
      ensures saved == PopEach(old(saved)) && globals == Tops(saved) && Regained(old(saved), saved, globals)
    {
      var i := 0;
      while i < |saved|
        invariant i <= |saved| == |globals| == |old(saved)|
        invariant forall j :: 0 <= j < i ==> saved[j] == old(saved)[j][..|old(saved)[j]| - 1]
        invariant forall j :: i <= j < |saved| ==> saved[j] == old(saved)[j]
        invariant forall j :: 0 <= j < i ==> globals[j] == saved[j][|saved[j]| - 1]
      {
        saved := saved[i := saved[i][..|saved[i]| - 1]];
        globals := globals[i := saved[i][|saved[i]| - 1]];
        i := i + 1;
      }
    }
  }
}
