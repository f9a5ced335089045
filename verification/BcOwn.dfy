/** The postfix of an expression uses only results it pushed itself, so evaluating it in a function leaves what lies
    below the function's frame alone, and the arguments of a call are the caller's own. */
module BcOwn {
  import E = BcExpr
  import S = BcSound
  import C = BcComplete
  import opened BcMemory
  import opened BcBinding
  import opened BcCalls

  function Temps(values: seq<int>): seq<Arg> {
    seq(|values|, i requires 0 <= i < |values| => Temp(values[i]))
  }

  /** One instruction on the interpreter's result stack, whatever lies on it; none if operands are missing. */
  function OnResults(m: E.Meaning, i: E.Inst, results: seq<Arg>): E.Option<seq<Arg>> {
    var n := |results|;
    match i
    case Push(v) => E.Some(results + [Temp(v)])
    case Do(op) =>
      if E.Prefix(op) then
        if n < 1 || !results[n - 1].Temp? then E.None else E.Some(results[..n - 1] + [Temp(m.one(op, results[n - 1].n))])
      else if n < 2 || !results[n - 1].Temp? || !results[n - 2].Temp? then E.None
      else E.Some(results[..n - 2] + [Temp(m.two(op, results[n - 2].n, results[n - 1].n))])
  }

  function RunOn(m: E.Meaning, code: seq<E.Inst>, results: seq<Arg>): E.Option<seq<Arg>>
    decreases |code|
  {
    if code == [] then E.Some(results)
    else
      var r := OnResults(m, code[0], results);
      if r.Some? then RunOn(m, code[1..], r.value) else E.None
  }

  lemma {:induction false} RunOnAppend(m: E.Meaning, a: seq<E.Inst>, b: seq<E.Inst>, results: seq<Arg>)
    requires RunOn(m, a, results).Some?
    ensures RunOn(m, a + b, results) == RunOn(m, b, RunOn(m, a, results).value)
    decreases |a|
  {
    hide OnResults;
    if a == [] {
      assert a + b == b;
    } else {
      assert (a + b)[1..] == a[1..] + b;
      RunOnAppend(m, a[1..], b, OnResults(m, a[0], results).value);
    }
  }

  lemma RunOnOne(m: E.Meaning, i: E.Inst, results: seq<Arg>)
    ensures RunOn(m, [i], results) == OnResults(m, i, results)
  {
    assert [i][1..] == [];
  }

  lemma TempsAppend(results: seq<Arg>, v: int, values: seq<int>)
    ensures results + [Temp(v)] + Temps(values) == results + Temps([v] + values)
  {
  }

  /** Part of the way through a tree's postfix, only values pushed since lie on top of what was there; at its end, one. */
  lemma {:induction false} PostOwn(m: E.Meaning, e: E.Expr, results: seq<Arg>, k: nat) returns (values: seq<int>)
    requires E.WellPrec(e) && k <= |E.Post(e)|
    ensures RunOn(m, E.Post(e)[..k], results) == E.Some(results + Temps(values))
    ensures k == |E.Post(e)| ==> values == [E.Value(m, e)]
    decreases e, 1
  {
    var code := E.Post(e);
    if k == 0 {
      values := [];
      PostLonger(e);
      assert results + Temps([]) == results && code[..0] == [];
      return;
    }
    match e
    case Num(v) =>
      values := [v];
      assert code[..k] == [E.Push(v)];
      RunOnOne(m, E.Push(v), results);
      assert Temps([v]) == [Temp(v)];
    case Group(x) => values := PostOwn(m, x, results, k);
    case Pre(op, x) =>
      if k <= |E.Post(x)| {
        assert code[..k] == E.Post(x)[..k];
        values := PostOwn(m, x, results, k);
      } else {
        values := PrefixOwn(m, op, x, results);
        assert code[..k] == code;
      }
    case Bin(op, l, r) => values := BinaryOwn(m, op, l, r, results, k);
  }

  lemma PostLonger(e: E.Expr)
    ensures |E.Post(e)| > 0
  {
  }

  lemma {:induction false} PrefixOwn(m: E.Meaning, op: E.Op, x: E.Expr, results: seq<Arg>) returns (values: seq<int>)
    requires E.WellPrec(E.Pre(op, x))
    ensures RunOn(m, E.Post(E.Pre(op, x)), results) == E.Some(results + Temps(values))
    ensures values == [E.Value(m, E.Pre(op, x))]
    decreases E.Pre(op, x), 0
  {
    var code := E.Post(x);
    assert code[..|code|] == code;
    var inner := PostOwn(m, x, results, |code|);
    values := [E.Value(m, E.Pre(op, x))];
    RunOnAppend(m, code, [E.Do(op)], results);
    var v := E.Value(m, x);
    assert Temps([v]) == [Temp(v)] && Temps(values) == [Temp(values[0])];
    RunOnOne(m, E.Do(op), results + [Temp(v)]);
    assert (results + [Temp(v)])[..|results|] == results;
  }

  lemma {:induction false} BinaryOwn(m: E.Meaning, op: E.Op, l: E.Expr, r: E.Expr, results: seq<Arg>, k: nat) returns (values: seq<int>)
    requires E.WellPrec(E.Bin(op, l, r)) && 0 < k <= |E.Post(E.Bin(op, l, r))|
    ensures RunOn(m, E.Post(E.Bin(op, l, r))[..k], results) == E.Some(results + Temps(values))
    ensures k == |E.Post(E.Bin(op, l, r))| ==> values == [E.Value(m, E.Bin(op, l, r))]
    decreases E.Bin(op, l, r), 0
  {
    hide RunOn, OnResults;
    var pl, pr, code := E.Post(l), E.Post(r), E.Post(E.Bin(op, l, r));
    if k <= |pl| {
      assert code[..k] == pl[..k];
      values := PostOwn(m, l, results, k);
    } else {
      var vl := E.Value(m, l);
      assert pl[..|pl|] == pl;
      var one := PostOwn(m, l, results, |pl|);
      assert Temps(one) == [Temp(vl)];
      if k <= |pl| + |pr| {
        assert code[..k] == pl + pr[..k - |pl|];
        RunOnAppend(m, pl, pr[..k - |pl|], results);
        var more := PostOwn(m, r, results + [Temp(vl)], k - |pl|);
        TempsAppend(results, vl, more);
        values := [vl] + more;
      } else {
        values := [E.Value(m, E.Bin(op, l, r))];
        assert pr[..|pr|] == pr;
        var two := PostOwn(m, r, results + [Temp(vl)], |pr|);
        assert Temps(two) == [Temp(E.Value(m, r))];
        assert code[..k] == (pl + pr) + [E.Do(op)];
        RunOnAppend(m, pl, pr, results);
        RunOnAppend(m, pl + pr, [E.Do(op)], results);
        BothDone(m, op, results, vl, E.Value(m, r));
      }
    }
  }

  lemma BothDone(m: E.Meaning, op: E.Op, results: seq<Arg>, x: int, y: int)
    requires !E.Prefix(op)
    ensures RunOn(m, [E.Do(op)], results + [Temp(x)] + [Temp(y)]) == E.Some(results + Temps([m.two(op, x, y)]))
  {
    var all := results + [Temp(x)] + [Temp(y)];
    RunOnOne(m, E.Do(op), all);
    assert all[..|all| - 2] == results;
    assert Temps([m.two(op, x, y)]) == [Temp(m.two(op, x, y))];
  }

  // ------------------------------------------------------------- inside a function

  /** The interpreter after k instructions of the code, started in s. */
  function After(m: E.Meaning, code: seq<E.Inst>, s: State, k: nat): State
    requires k <= |code|
  {
    var r := RunOn(m, code[..k], s.results);
    if r.Some? then s.(results := r.value) else s
  }

  /** A function that leaves the results below its frame alone goes on doing so while it evaluates what the parser made
      of an expression, and has one more result in the end. */
  lemma ParsedWorks(m: E.Meaning, toks: seq<E.Tok>, e: E.Expr, n: nat, s: State, k: nat)
    requires S.Reads(toks, e, n) && S.Accepted(toks)
    requires s.frames != [] && FrameOf(s).len <= |s.results| && GlobalsOk(s)
    ensures var code := E.Finish(E.Tokens(E.INIT, toks).st);
            code.Some? && (k < |code.value| ==> Work(After(m, code.value, s, k), After(m, code.value, s, k + 1)))
            && After(m, code.value, s, |code.value|) == s.(results := s.results + [Temp(E.Value(m, e))])
  {
    hide RunOn;
    C.ReadsWell(toks, e, n);
    C.OneMeaning(m, toks, e, n, []);
    var code := E.Post(e);
    assert code[..|code|] == code;
    var all := PostOwn(m, e, s.results, |code|);
    assert Temps(all) == [Temp(E.Value(m, e))];
    if k < |code| {
      var now := PostOwn(m, e, s.results, k);
      var next := PostOwn(m, e, s.results, k + 1);
      OwnWork(s, Temps(now), Temps(next));
    }
  }

  lemma OwnWork(s: State, now: seq<Arg>, next: seq<Arg>)
    requires s.frames != [] && FrameOf(s).len <= |s.results| && GlobalsOk(s)
    ensures Work(s.(results := s.results + now), s.(results := s.results + next))
  {
    NearSame(s.mem, {});
    var len := FrameOf(s).len;
    assert (s.results + now)[..len] == s.results[..len] == (s.results + next)[..len];
  }

  function Values(m: E.Meaning, es: seq<E.Expr>): seq<int> {
    seq(|es|, i requires 0 <= i < |es| => E.Value(m, es[i]))
  }

  /** The postfix of one argument after the other leaves their values in order. */
  lemma {:induction false} ArgumentsPushed(m: E.Meaning, es: seq<E.Expr>, results: seq<Arg>)
    requires forall i :: 0 <= i < |es| ==> E.WellPrec(es[i])
    ensures RunOn(m, S.PostAll(es), results) == E.Some(results + Temps(Values(m, es)))
    decreases |es|
  {
    hide RunOn;
    if es == [] {
      RunOnNothing(m, results);
      assert results + Temps(Values(m, es)) == results;
    } else {
      var n := |es|;
      var init, last := es[..n - 1], es[n - 1];
      ArgumentsPushed(m, init, results);
      var below := results + Temps(Values(m, init));
      RunOnAppend(m, S.PostAll(init), E.Post(last), results);
      var one := PostOwn(m, last, below, |E.Post(last)|);
      assert E.Post(last)[..|E.Post(last)|] == E.Post(last);
      assert below + Temps(one) == results + Temps(Values(m, es));
    }
  }

  lemma RunOnNothing(m: E.Meaning, results: seq<Arg>)
    ensures RunOn(m, [], results) == E.Some(results)
  {
  }

  /** A call with expressions as its arguments takes them all from its own function's results. */
  lemma ArgumentsOwn(m: E.Meaning, es: seq<E.Expr>, fns: seq<Func>, shield: bool, s: State, t: State, k: nat)
    requires forall i :: 0 <= i < |es| ==> E.WellPrec(es[i])
    requires s.frames != [] && FrameOf(s).len <= |s.results|
    requires RunOn(m, S.PostAll(es), s.results) == E.Some(t.results) && t.frames == s.frames
    requires CanCall(fns, t, k) && fns[k].nparams == |es|
    ensures OwnArgs(fns, t, AfterCall(fns, shield, t, k)) && AfterCall(fns, shield, t, k).results == s.results
    ensures ArgsOf(t, fns[k]) == Temps(Values(m, es))
  {
    hide RunOn, Ready, Called;
    ArgumentsPushed(m, es, s.results);
  }
}
