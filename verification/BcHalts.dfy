/** The other direction and the whole: when the byte code halts the statement comes to an end, and every
    label is an instruction boundary. */
module BcHalts {
  import opened BcCode
  import opened BcParser
  import opened BcRun

  /** The run from here is over within n steps. */
  ghost predicate HaltsIn<S>(m: Machine<S>, code: seq<int>, labels: seq<nat>, pc: nat, s: S, n: nat) {
    Steps(m, code, labels, Config(pc, s), n).pc >= |code|
  }

  function Minus(a: nat, b: nat): nat {
    if a >= b then a - b else 0
  }

  /** A run that halts in n steps halts in so many fewer once some are done; before it halts, some are left. */
  lemma HaltsSooner<S>(m: Machine<S>, code: seq<int>, labels: seq<nat>, b: nat, s: S, n: nat, k: nat, pc: nat, s': S)
    requires HaltsIn(m, code, labels, b, s, n) && Reached(m, code, labels, b, s, k, pc, s')
    ensures HaltsIn(m, code, labels, pc, s', Minus(n, k)) && (pc < |code| ==> k < n)
  {
    if k <= n {
      StepsAdd(m, code, labels, Config(b, s), k, n - k);
    } else {
      StepsAdd(m, code, labels, Config(b, s), n, k - n);
      StoppedStays(m, code, labels, Steps(m, code, labels, Config(b, s), n), k - n);
    }
  }

  /** More fuel changes nothing once there is enough. */
  lemma {:induction false} MoreFuel<S>(m: Machine<S>, t: Stmt, s: S, f: nat, g: nat)
    requires f <= g && !Run(m, t, s, f).Timeout?
    ensures Run(m, t, s, g) == Run(m, t, s, f)
    decreases t, f, 0
  {
    match t
    case Seq(x, y) =>
      MoreFuel(m, x, s, f, g);
      var o := Run(m, x, s, f);
      if o.Done? { MoreFuel(m, y, o.s, f, g); }
    case If(c, x) =>
      var v := Eval(m, c, s);
      if !m.zero(v) { MoreFuel(m, x, m.pop(v), f, g); }
    case IfElse(c, x, y) =>
      var v := Eval(m, c, s);
      if m.zero(v) { MoreFuel(m, y, m.pop(v), f, g); } else { MoreFuel(m, x, m.pop(v), f, g); }
    case While(c, x) =>
      var v := Eval(m, c, s);
      if !m.zero(v) {
        MoreFuel(m, x, m.pop(v), f, g);
        var o := Run(m, x, m.pop(v), f);
        if !o.Broke? { MoreFuel(m, t, o.s, f - 1, g - 1); }
      }
    case For(i, c, u, x) => MoreRounds(m, c, u, x, Eval(m, i, s), f, g);
    case _ =>
  }

  lemma {:induction false} MoreRounds<S>(m: Machine<S>, c: seq<Ins>, u: seq<Ins>, x: Stmt, s: S, f: nat, g: nat)
    requires f <= g && !RunFor(m, c, u, x, s, f).Timeout?
    ensures RunFor(m, c, u, x, s, g) == RunFor(m, c, u, x, s, f)
    decreases x, f, 1
  {
    var v := Eval(m, c, s);
    if !m.zero(v) {
      MoreFuel(m, x, m.pop(v), f, g);
      var o := Run(m, x, m.pop(v), f);
      if !o.Broke? { MoreRounds(m, c, u, x, Eval(m, u, o.s), f - 1, g - 1); }
    }
  }

  /** If the code halts, the statement comes to an end, with as much fuel as the code took steps. */
  lemma {:induction false} Backward<S>(m: Machine<S>, code: seq<int>, labels: seq<nat>, t: Stmt, inLoop: bool, b: nat, n: nat,
                                       brk: nat, cont: nat, s: S, steps: nat)
    requires Placed(code, labels, t, b, n, brk, cont) && WellFormed(m.takes, t, inLoop)
    requires InScope(inLoop, labels, brk, cont) && HaltsIn(m, code, labels, b, s, steps)
    ensures !Run(m, t, s, steps).Timeout?
    decreases t, steps, 2
  {
    hide Labels, Code, OpsCode, Jump, Steps, Step, Eval, LabelCount, HaltsIn, Reached;
    match t
    case Seq(x, y) =>
      SeqParts(code, labels, x, y, b, n, brk, cont);
      Backward(m, code, labels, x, inLoop, b, n, brk, cont, s, steps);
      var o := Run(m, x, s, steps);
      if o.Done? {
        var mid := b + |Code(x, n, brk, cont)|;
        var k := Forward(m, code, labels, x, inLoop, b, n, brk, cont, s, steps);
        HaltsSooner(m, code, labels, b, s, steps, k, mid, o.s);
        Backward(m, code, labels, y, inLoop, mid, n + LabelCount(x), brk, cont, o.s, Minus(steps, k));
        MoreFuel(m, y, o.s, Minus(steps, k), steps);
      }
    case If(c, x) =>
      IfParts(code, labels, c, x, b, n, brk, cont);
      var body := b + |OpsCode(c)| + |Jump(JUMP_ZERO, n)|;
      BackwardArm(m, code, labels, c, x, inLoop, b, n, body, n, n + 1, brk, cont, s, steps);
    case IfElse(c, x, y) =>
      IfElseParts(code, labels, t, b, n, brk, cont);
      var over := n + 1 + LabelCount(x);
      var yes := b + |OpsCode(c)| + |Jump(JUMP_ZERO, n)|;
      BackwardArm(m, code, labels, c, x, inLoop, b, n, yes, n, n + 1, brk, cont, s, steps);
      var v := Eval(m, c, s);
      if m.zero(v) {
        TestSteps(m, code, labels, b, c, n, s);
        TestReached(m, code, labels, b, c, n, s);
        HaltsSooner(m, code, labels, b, s, steps, |c| + 1, labels[n], m.pop(v));
        Backward(m, code, labels, y, inLoop, labels[n], over + 1, brk, cont, m.pop(v), Minus(steps, |c| + 1));
        MoreFuel(m, y, m.pop(v), Minus(steps, |c| + 1), steps);
      }
    case While(c, x) => BackwardWhile(m, code, labels, c, x, b, n, brk, cont, s, steps);
    case For(_, _, _, _) => BackwardFor(m, code, labels, t, b, n, brk, cont, s, steps);
    case _ =>
  }

  lemma TestReached<S>(m: Machine<S>, code: seq<int>, labels: seq<nat>, b: nat, c: seq<Ins>, target: nat, s: S)
    requires var test := b + |OpsCode(c)|;
             Holds(code, b, OpsCode(c)) && Holds(code, test, Jump(JUMP_ZERO, target))
    requires Plain(m.takes, c) && target < |labels|
    ensures var x := Eval(m, c, s);
            Reached(m, code, labels, b, s, |c| + 1,
                    if m.zero(x) then labels[target] else b + |OpsCode(c)| + |Jump(JUMP_ZERO, target)|, m.pop(x))
  {
    hide Steps, Step, OpsCode, Jump, Eval;
    TestSteps(m, code, labels, b, c, target, s);
  }

  /** The arm taken when the condition is not zero. */
  lemma {:induction false} BackwardArm<S>(m: Machine<S>, code: seq<int>, labels: seq<nat>, c: seq<Ins>, x: Stmt, inLoop: bool,
                                          b: nat, n: nat, body: nat, target: nat, n': nat, brk: nat, cont: nat, s: S, steps: nat)
    requires Holds(code, b, OpsCode(c)) && Holds(code, b + |OpsCode(c)|, Jump(JUMP_ZERO, target))
    requires body == b + |OpsCode(c)| + |Jump(JUMP_ZERO, target)| && Plain(m.takes, c) && target < |labels|
    requires Placed(code, labels, x, body, n', brk, cont) && WellFormed(m.takes, x, inLoop)
    requires InScope(inLoop, labels, brk, cont) && HaltsIn(m, code, labels, b, s, steps)
    ensures var v := Eval(m, c, s); !m.zero(v) ==> !Run(m, x, m.pop(v), steps).Timeout?
    decreases x, steps, 3
  {
    hide Labels, Code, OpsCode, Jump, Steps, Step, Eval, LabelCount, HaltsIn, Reached;
    var v := Eval(m, c, s);
    if !m.zero(v) {
      TestReached(m, code, labels, b, c, target, s);
      HaltsSooner(m, code, labels, b, s, steps, |c| + 1, body, m.pop(v));
      Backward(m, code, labels, x, inLoop, body, n', brk, cont, m.pop(v), Minus(steps, |c| + 1));
      MoreFuel(m, x, m.pop(v), Minus(steps, |c| + 1), steps);
    }
  }

  lemma {:induction false} BackwardWhile<S>(m: Machine<S>, code: seq<int>, labels: seq<nat>, c: seq<Ins>, x: Stmt, b: nat, n: nat,
                                            brk: nat, cont: nat, s: S, steps: nat)
    requires Placed(code, labels, While(c, x), b, n, brk, cont) && WellFormed(m.takes, While(c, x), false)
    requires HaltsIn(m, code, labels, b, s, steps)
    ensures !Run(m, While(c, x), s, steps).Timeout?
    decreases While(c, x), steps, 1
  {
    hide Labels, Code, OpsCode, Jump, Steps, Step, Eval, LabelCount, HaltsIn, Reached;
    WhileParts(code, labels, c, x, b, n, brk, cont);
    var body := b + |OpsCode(c)| + |Jump(JUMP_ZERO, n + 1)|;
    var back := body + |Code(x, n + 2, n + 1, n)|;
    BackwardArm(m, code, labels, c, x, true, b, n, body, n + 1, n + 2, n + 1, n, s, steps);
    var v := Eval(m, c, s);
    if !m.zero(v) {
      TestReached(m, code, labels, b, c, n + 1, s);
      HaltsSooner(m, code, labels, b, s, steps, |c| + 1, body, m.pop(v));
      var o := Run(m, x, m.pop(v), steps);
      if !o.Broke? {
        var k := RoundTaken(m, code, labels, c, x, b, n, brk, cont, s, steps);
        HaltsSooner(m, code, labels, b, s, steps, k, b, o.s);
        BackwardWhile(m, code, labels, c, x, b, n, brk, cont, o.s, Minus(steps, k));
        MoreFuel(m, While(c, x), o.s, Minus(steps, k), steps - 1);
      }
    }
  }

  /** One whole round of a while loop, back to its condition. */
  lemma RoundTaken<S>(m: Machine<S>, code: seq<int>, labels: seq<nat>, c: seq<Ins>, x: Stmt, b: nat, n: nat,
                      brk: nat, cont: nat, s: S, fuel: nat)
    returns (k: nat)
    requires Placed(code, labels, While(c, x), b, n, brk, cont) && WellFormed(m.takes, While(c, x), false)
    requires var v := Eval(m, c, s); !m.zero(v) && var o := Run(m, x, m.pop(v), fuel); !o.Timeout? && !o.Broke?
    ensures k > 0 && b < |code| && Reached(m, code, labels, b, s, k, b, Run(m, x, m.pop(Eval(m, c, s)), fuel).s)
  {
    hide Labels, Code, OpsCode, Jump, Steps, Step, Eval, LabelCount, Reached;
    WhileParts(code, labels, c, x, b, n, brk, cont);
    var body := b + |OpsCode(c)| + |Jump(JUMP_ZERO, n + 1)|;
    var back := body + |Code(x, n + 2, n + 1, n)|;
    var v := Eval(m, c, s);
    TestReached(m, code, labels, b, c, n + 1, s);
    var o := Run(m, x, m.pop(v), fuel);
    var j := Forward(m, code, labels, x, true, body, n + 2, n + 1, n, m.pop(v), fuel);
    ReachedThen(m, code, labels, b, s, |c| + 1, body, m.pop(v), j, Target(o, back, labels, n + 1, n), o.s);
    k := |c| + 1 + j;
    if o.Done? {
      JumpReached(m, code, labels, back, n, o.s);
      ReachedThen(m, code, labels, b, s, k, back, o.s, 1, labels[n], o.s);
      k := k + 1;
    }
  }

  lemma JumpReached<S>(m: Machine<S>, code: seq<int>, labels: seq<nat>, pc: nat, target: nat, s: S)
    requires Holds(code, pc, Jump(JUMP, target)) && target < |labels|
    ensures Reached(m, code, labels, pc, s, 1, labels[target], s)
  {
    hide Jump, Steps, Step;
    JumpSteps(m, code, labels, pc, target, s);
  }

  lemma {:induction false} BackwardFor<S>(m: Machine<S>, code: seq<int>, labels: seq<nat>, t: Stmt, b: nat, n: nat,
                                          brk: nat, cont: nat, s: S, steps: nat)
    requires t.For? && Placed(code, labels, t, b, n, brk, cont) && WellFormed(m.takes, t, false)
    requires HaltsIn(m, code, labels, b, s, steps)
    ensures !Run(m, t, s, steps).Timeout?
    decreases t, steps, 1
  {
    hide Labels, Code, OpsCode, Jump, Steps, Step, Eval, LabelCount, HaltsIn, ForHead, ForUpdate;
    ForParts(code, labels, t, b, n, brk, cont);
    var top := b + |OpsCode(t.init)|;
    var s0 := Eval(m, t.init, s);
    OpsSteps(m, code, labels, b, t.init, s);
    HaltsSooner(m, code, labels, b, s, steps, |t.init|, top, s0);
    BackwardRounds(m, code, labels, t, b, n, brk, cont, s0, Minus(steps, |t.init|));
    MoreRounds(m, t.cond, t.update, t.body, s0, Minus(steps, |t.init|), steps);
  }

  lemma {:induction false} BackwardRounds<S>(m: Machine<S>, code: seq<int>, labels: seq<nat>, t: Stmt, b: nat, n: nat,
                                             brk: nat, cont: nat, s: S, steps: nat)
    requires t.For? && Placed(code, labels, t, b, n, brk, cont) && WellFormed(m.takes, t, false)
    requires HaltsIn(m, code, labels, b + |OpsCode(t.init)|, s, steps)
    ensures !RunFor(m, t.cond, t.update, t.body, s, steps).Timeout?
    decreases t.body, steps, 3
  {
    hide Labels, Code, OpsCode, Jump, Steps, Step, Eval, LabelCount, HaltsIn, Reached, ForHead, ForUpdate;
    ForParts(code, labels, t, b, n, brk, cont);
    var top := b + |OpsCode(t.init)|;
    var body := labels[n + 2];
    var v := Eval(m, t.cond, s);
    ForTest(m, code, labels, top, t.cond, n, s);
    if !m.zero(v) {
      HaltsSooner(m, code, labels, top, s, steps, |t.cond| + 2, body, m.pop(v));
      var r := Minus(steps, |t.cond| + 2);
      Backward(m, code, labels, t.body, true, body, n + 4, n + 3, n + 1, m.pop(v), r);
      MoreFuel(m, t.body, m.pop(v), r, steps);
      var o := Run(m, t.body, m.pop(v), steps);
      if !o.Broke? {
        var k := ForRoundTaken(m, code, labels, t, b, n, brk, cont, s, steps);
        var s3 := Eval(m, t.update, o.s);
        HaltsSooner(m, code, labels, top, s, steps, k, top, s3);
        BackwardRounds(m, code, labels, t, b, n, brk, cont, s3, Minus(steps, k));
        MoreRounds(m, t.cond, t.update, t.body, s3, Minus(steps, k), steps - 1);
      }
    }
  }

  lemma ForRoundTaken<S>(m: Machine<S>, code: seq<int>, labels: seq<nat>, t: Stmt, b: nat, n: nat,
                         brk: nat, cont: nat, s: S, fuel: nat)
    returns (k: nat)
    requires t.For? && Placed(code, labels, t, b, n, brk, cont) && WellFormed(m.takes, t, false)
    requires var v := Eval(m, t.cond, s); !m.zero(v) && var o := Run(m, t.body, m.pop(v), fuel); !o.Timeout? && !o.Broke?
    ensures var top := b + |OpsCode(t.init)|;
            k > 0 && top < |code|
            && Reached(m, code, labels, top, s, k, top, Eval(m, t.update, Run(m, t.body, m.pop(Eval(m, t.cond, s)), fuel).s))
  {
    hide Labels, Code, OpsCode, Jump, Steps, Step, Eval, LabelCount, Reached, ForHead, ForUpdate;
    ForParts(code, labels, t, b, n, brk, cont);
    var top, update, body := labels[n], labels[n + 1], labels[n + 2];
    var back := body + |Code(t.body, n + 4, n + 3, n + 1)|;
    var v := Eval(m, t.cond, s);
    ForTest(m, code, labels, top, t.cond, n, s);
    k := |t.cond| + 2;
    var o := Run(m, t.body, m.pop(v), fuel);
    var j := Forward(m, code, labels, t.body, true, body, n + 4, n + 3, n + 1, m.pop(v), fuel);
    ReachedThen(m, code, labels, top, s, k, body, m.pop(v), j, Target(o, back, labels, n + 3, n + 1), o.s);
    k := k + j;
    if o.Done? {
      JumpReached(m, code, labels, back, n + 1, o.s);
      ReachedThen(m, code, labels, top, s, k, back, o.s, 1, update, o.s);
      k := k + 1;
    }
    ForBack(m, code, labels, update, t.update, n, o.s);
    ReachedThen(m, code, labels, top, s, k, update, o.s, |t.update| + 1, top, Eval(m, t.update, o.s));
    k := k + |t.update| + 1;
  }

  // ---------------------------------------------------------------- whole programs

  /** Compiled as a function body, from the empty code. */
  predicate Compiled(t: Stmt, code: seq<int>, labels: seq<nat>) {
    code == Code(t, 0, 0, 0) && labels == Labels(t, 0, 0, 0, 0)
  }

  lemma CompiledPlaced(t: Stmt, code: seq<int>, labels: seq<nat>)
    requires Compiled(t, code, labels)
    ensures Placed(code, labels, t, 0, 0, 0, 0)
  {
    hide Code, Labels;
    LabelsCounted(t, 0, 0, 0, 0);
    assert code[0..|code|] == code && labels[0..|labels|] == labels;
  }

  /** The byte code ends in a state just when the statement does. */
  lemma Preserved<S(!new)>(m: Machine<S>, t: Stmt, code: seq<int>, labels: seq<nat>, s: S, s': S)
    requires WellFormed(m.takes, t, false) && Compiled(t, code, labels)
    ensures (exists fuel: nat :: Run(m, t, s, fuel) == Done(s'))
       <==> (exists k: nat :: Steps(m, code, labels, Config(0, s), k) == Config(|code|, s'))
  {
    hide Code, Labels, Steps, Step, Run;
    CompiledPlaced(t, code, labels);
    if fuel: nat :| Run(m, t, s, fuel) == Done(s') {
      var k := Forward(m, code, labels, t, false, 0, 0, 0, 0, s, fuel);
      assert Steps(m, code, labels, Config(0, s), k) == Config(|code|, s');
    }
    if k: nat :| Steps(m, code, labels, Config(0, s), k) == Config(|code|, s') {
      Backward(m, code, labels, t, false, 0, 0, 0, 0, s, k);
      StaysInside(m, t, false, s, k);
      var j := Forward(m, code, labels, t, false, 0, 0, 0, 0, s, k);
      SameEnd(m, code, labels, Config(0, s), j, k);
      assert Run(m, t, s, k) == Done(s');
    }
  }

  /** A run has one end. */
  lemma SameEnd<S>(m: Machine<S>, code: seq<int>, labels: seq<nat>, x: Config<S>, j: nat, k: nat)
    requires Steps(m, code, labels, x, j).pc >= |code| && Steps(m, code, labels, x, k).pc >= |code|
    ensures Steps(m, code, labels, x, j) == Steps(m, code, labels, x, k)
  {
    if j <= k {
      StepsAdd(m, code, labels, x, j, k - j);
      StoppedStays(m, code, labels, Steps(m, code, labels, x, j), k - j);
    } else {
      StepsAdd(m, code, labels, x, k, j - k);
      StoppedStays(m, code, labels, Steps(m, code, labels, x, k), j - k);
    }
  }

  /** A parser fed a bracketed statement tree produces code and labels that mean the same. */
  method CompileProgram(takes: OpTest, t: Stmt) returns (p: Parser)
    requires WellFormed(takes, t, false) && Small(t) && LabelCount(t) <= SIZE_MAX
    ensures fresh(p) && Compiled(t, p.code, p.labels) && p.exits == [] && p.conds == []
    ensures forall i :: 0 <= i < |p.labels| ==> Boundary(takes, p.code, p.labels[i])
    ensures |p.code| < SIZE_MAX ==> forall i :: 0 <= i < |p.labels| ==> p.labels[i] != SIZE_MAX
  {
    hide Code, Labels, Boundary;
    p := new Parser(takes);
    p.Compile(t, false, 0, 0);
    CompiledPlaced(t, p.code, p.labels);
    StartBoundary(takes, p.code);
    LabelsOnBoundaries(takes, p.code, p.labels, t, false, 0, 0, 0, 0);
    LabelsCounted(t, 0, 0, 0, 0);
    forall i | 0 <= i < |p.labels| ensures Boundary(takes, p.code, p.labels[i]) && p.labels[i] <= |p.code| {
      BoundaryInside(takes, p.code, p.labels[i]);
    }
  }

  /** A program compiled and run for so many instructions: no jump meets an unset label, and a run that gets to the
      end of the code ends as the statement does. */
  method CompileAndRun<S(!new)>(m: Machine<S>, t: Stmt, s: S, budget: nat) returns (ended: bool, x: Config<S>)
    requires WellFormed(m.takes, t, false) && Small(t) && LabelCount(t) <= SIZE_MAX
    requires |Code(t, 0, 0, 0)| < SIZE_MAX
    ensures ended ==> exists fuel: nat :: Run(m, t, s, fuel) == Done(x.s)
    ensures x == Steps(m, Code(t, 0, 0, 0), Labels(t, 0, 0, 0, 0), Config(0, s), budget)
    ensures ended <==> x.pc == |Code(t, 0, 0, 0)|
  {
    hide Code, Labels, Steps, Step, Run, Boundary;
    var p := CompileProgram(m.takes, t);
    x := Exec(m, p.code, p.labels, s, budget);
    ended := x.pc == |p.code|;
    if ended {
      Preserved(m, t, p.code, p.labels, s, x.s);
      assert Steps(m, p.code, p.labels, Config(0, s), budget) == Config(|p.code|, x.s);
    }
  }

  // --------------------------------------------------------- instruction boundaries

  /** Where the next instruction starts, reading straight on. */
  function NextPc(takes: OpTest, code: seq<int>, pc: nat): nat {
    if pc >= |code| then pc
    else if code[pc] == JUMP || code[pc] == JUMP_ZERO then ReadIndex(code, pc + 1).1
    else ReadOperands(code, pc + 1, takes(code[pc])).1
  }

  function Walk(takes: OpTest, code: seq<int>, pc: nat, n: nat): nat
    decreases n
  {
    if n == 0 then pc else Walk(takes, code, NextPc(takes, code, pc), n - 1)
  }

  ghost predicate Straight(takes: OpTest, code: seq<int>, b: nat, e: nat) {
    exists n: nat :: Walk(takes, code, b, n) == e
  }

  /** Reached from the start by reading instruction after instruction. */
  ghost predicate Boundary(takes: OpTest, code: seq<int>, pc: nat) {
    pc <= |code| && Straight(takes, code, 0, pc)
  }

  lemma BoundaryInside(takes: OpTest, code: seq<int>, pc: nat)
    requires Boundary(takes, code, pc)
    ensures pc <= |code|
  {
  }

  lemma {:induction false} WalkAdd(takes: OpTest, code: seq<int>, pc: nat, j: nat, k: nat)
    ensures Walk(takes, code, pc, j + k) == Walk(takes, code, Walk(takes, code, pc, j), k)
    decreases j
  {
    if j > 0 { WalkAdd(takes, code, NextPc(takes, code, pc), j - 1, k); }
  }

  lemma StraightOn(takes: OpTest, code: seq<int>, b: nat, c: nat, e: nat)
    requires Straight(takes, code, b, c) && Straight(takes, code, c, e)
    ensures Straight(takes, code, b, e)
  {
    var j: nat :| Walk(takes, code, b, j) == c;
    var k: nat :| Walk(takes, code, c, k) == e;
    WalkAdd(takes, code, b, j, k);
  }

  lemma StraightOne(takes: OpTest, code: seq<int>, b: nat)
    ensures Straight(takes, code, b, b) && Straight(takes, code, b, NextPc(takes, code, b))
  {
    assert Walk(takes, code, b, 0) == b;
    assert Walk(takes, code, b, 1) == Walk(takes, code, NextPc(takes, code, b), 0);
  }

  lemma StartBoundary(takes: OpTest, code: seq<int>)
    ensures Boundary(takes, code, 0)
  {
    StraightOne(takes, code, 0);
  }

  lemma StraightJump(takes: OpTest, code: seq<int>, b: nat, op: int, idx: nat)
    requires Holds(code, b, Jump(op, idx)) && (op == JUMP || op == JUMP_ZERO)
    ensures Straight(takes, code, b, b + |Jump(op, idx)|)
  {
    HoldsParts(code, b, [op], Operand(idx));
    assert code[b..b + 1][0] == op;
    IndexRoundTrip(code, b + 1, idx);
    StraightOne(takes, code, b);
  }

  lemma StraightIns(takes: OpTest, code: seq<int>, b: nat, ins: Ins)
    requires Holds(code, b, InsCode(ins)) && Plain(takes, [ins])
    ensures Straight(takes, code, b, b + |InsCode(ins)|)
  {
    hide Operands;
    assert [ins][0] == ins;
    assert code[b..b + |InsCode(ins)|][0] == ins.op;
    HoldsParts(code, b, [ins.op], Operands(ins.args));
    OperandsRoundTrip(code, b + 1, ins.args);
    StraightOne(takes, code, b);
  }

  lemma {:induction false} StraightOps(takes: OpTest, code: seq<int>, b: nat, ops: seq<Ins>)
    requires Holds(code, b, OpsCode(ops)) && Plain(takes, ops)
    ensures Straight(takes, code, b, b + |OpsCode(ops)|)
    decreases |ops|
  {
    hide InsCode, Straight;
    if ops == [] {
      StraightOne(takes, code, b);
    } else {
      var head := InsCode(ops[0]);
      HoldsParts(code, b, head, OpsCode(ops[1..]));
      StraightIns(takes, code, b, ops[0]);
      StraightOps(takes, code, b + |head|, ops[1..]);
      StraightOn(takes, code, b, b + |head|, b + |OpsCode(ops)|);
    }
  }

  lemma PastOps(takes: OpTest, code: seq<int>, b: nat, ops: seq<Ins>)
    requires Boundary(takes, code, b) && Holds(code, b, OpsCode(ops)) && Plain(takes, ops)
    ensures Boundary(takes, code, b + |OpsCode(ops)|)
  {
    StraightOps(takes, code, b, ops);
    StraightOn(takes, code, 0, b, b + |OpsCode(ops)|);
  }

  lemma PastJump(takes: OpTest, code: seq<int>, b: nat, op: int, idx: nat)
    requires Boundary(takes, code, b) && Holds(code, b, Jump(op, idx)) && (op == JUMP || op == JUMP_ZERO)
    ensures Boundary(takes, code, b + |Jump(op, idx)|)
  {
    StraightJump(takes, code, b, op, idx);
    StraightOn(takes, code, 0, b, b + |Jump(op, idx)|);
  }

  ghost predicate AllBoundaries(takes: OpTest, code: seq<int>, labels: seq<nat>, n: nat, k: nat) {
    forall i :: n <= i < k && i < |labels| ==> Boundary(takes, code, labels[i])
  }

  /** Every label a statement makes is set to an instruction boundary inside the code. */
  lemma {:induction false} LabelsOnBoundaries(takes: OpTest, code: seq<int>, labels: seq<nat>, t: Stmt, inLoop: bool, b: nat, n: nat,
                                              brk: nat, cont: nat)
    requires Placed(code, labels, t, b, n, brk, cont) && WellFormed(takes, t, inLoop) && Boundary(takes, code, b)
    ensures Boundary(takes, code, b + |Code(t, n, brk, cont)|)
    ensures AllBoundaries(takes, code, labels, n, n + LabelCount(t))
    decreases t, 1
  {
    hide Labels, Code, OpsCode, Jump, Boundary, LabelCount;
    match t
    case Seq(x, y) =>
      SeqParts(code, labels, x, y, b, n, brk, cont);
      SeqCount(x, y);
      LabelsOnBoundaries(takes, code, labels, x, inLoop, b, n, brk, cont);
      LabelsOnBoundaries(takes, code, labels, y, inLoop, b + |Code(x, n, brk, cont)|, n + LabelCount(x), brk, cont);
    case If(c, x) =>
      IfParts(code, labels, c, x, b, n, brk, cont);
      IfUnfold(c, x, b, n, brk, cont);
      PastOps(takes, code, b, c);
      PastJump(takes, code, b + |OpsCode(c)|, JUMP_ZERO, n);
      LabelsOnBoundaries(takes, code, labels, x, inLoop, b + |OpsCode(c)| + |Jump(JUMP_ZERO, n)|, n + 1, brk, cont);
    case IfElse(_, _, _) => IfElseBoundaries(takes, code, labels, t, inLoop, b, n, brk, cont);
    case While(_, _) => WhileBoundaries(takes, code, labels, t, b, n, brk, cont);
    case For(_, _, _, _) => ForBoundaries(takes, code, labels, t, b, n, brk, cont);
    case _ => PlainBoundaries(takes, code, labels, t, inLoop, b, n, brk, cont);
  }

  lemma PlainBoundaries(takes: OpTest, code: seq<int>, labels: seq<nat>, t: Stmt, inLoop: bool, b: nat, n: nat, brk: nat, cont: nat)
    requires t.Skip? || t.Do? || t.Break? || t.Continue?
    requires Placed(code, labels, t, b, n, brk, cont) && WellFormed(takes, t, inLoop) && Boundary(takes, code, b)
    ensures Boundary(takes, code, b + |Code(t, n, brk, cont)|) && LabelCount(t) == 0
  {
    hide Labels, OpsCode, Jump, Boundary;
    match t
    case Skip =>
    case Do(ops) => PastOps(takes, code, b, ops);
    case Break => PastJump(takes, code, b, JUMP, brk);
    case Continue => PastJump(takes, code, b, JUMP, cont);
  }

  lemma {:induction false} IfElseBoundaries(takes: OpTest, code: seq<int>, labels: seq<nat>, t: Stmt, inLoop: bool, b: nat, n: nat,
                                            brk: nat, cont: nat)
    requires t.IfElse? && Placed(code, labels, t, b, n, brk, cont) && WellFormed(takes, t, inLoop) && Boundary(takes, code, b)
    ensures Boundary(takes, code, b + |Code(t, n, brk, cont)|)
    ensures AllBoundaries(takes, code, labels, n, n + LabelCount(t))
    decreases t, 0
  {
    hide Labels, Code, OpsCode, Jump, Boundary, LabelCount;
    IfElseParts(code, labels, t, b, n, brk, cont);
    IfElseCount(t);
    var over := n + 1 + LabelCount(t.yes);
    var test := b + |OpsCode(t.cond)|;
    var yes := test + |Jump(JUMP_ZERO, n)|;
    var leave := yes + |Code(t.yes, n + 1, brk, cont)|;
    PastOps(takes, code, b, t.cond);
    PastJump(takes, code, test, JUMP_ZERO, n);
    LabelsOnBoundaries(takes, code, labels, t.yes, inLoop, yes, n + 1, brk, cont);
    PastJump(takes, code, leave, JUMP, over);
    LabelsOnBoundaries(takes, code, labels, t.no, inLoop, leave + |Jump(JUMP, over)|, over + 1, brk, cont);
  }

  lemma {:induction false} WhileBoundaries(takes: OpTest, code: seq<int>, labels: seq<nat>, t: Stmt, b: nat, n: nat, brk: nat, cont: nat)
    requires t.While? && Placed(code, labels, t, b, n, brk, cont) && WellFormed(takes, t, false) && Boundary(takes, code, b)
    ensures Boundary(takes, code, b + |Code(t, n, brk, cont)|)
    ensures AllBoundaries(takes, code, labels, n, n + LabelCount(t))
    decreases t, 0
  {
    hide Labels, Code, OpsCode, Jump, Boundary, LabelCount;
    WhileParts(code, labels, t.cond, t.body, b, n, brk, cont);
    WhileUnfold(t.cond, t.body, b, n, brk, cont);
    var test := b + |OpsCode(t.cond)|;
    var body := test + |Jump(JUMP_ZERO, n + 1)|;
    PastOps(takes, code, b, t.cond);
    PastJump(takes, code, test, JUMP_ZERO, n + 1);
    LabelsOnBoundaries(takes, code, labels, t.body, true, body, n + 2, n + 1, n);
    PastJump(takes, code, body + |Code(t.body, n + 2, n + 1, n)|, JUMP, n);
  }

  lemma {:induction false} ForBoundaries(takes: OpTest, code: seq<int>, labels: seq<nat>, t: Stmt, b: nat, n: nat, brk: nat, cont: nat)
    requires t.For? && Placed(code, labels, t, b, n, brk, cont) && WellFormed(takes, t, false) && Boundary(takes, code, b)
    ensures Boundary(takes, code, b + |Code(t, n, brk, cont)|)
    ensures AllBoundaries(takes, code, labels, n, n + LabelCount(t))
    decreases t, 0
  {
    hide Labels, Code, OpsCode, Jump, Boundary, LabelCount;
    ForParts(code, labels, t, b, n, brk, cont);
    ForUnfold(t, b, n, brk, cont);
    var top, update, body := labels[n], labels[n + 1], labels[n + 2];
    var test := top + |OpsCode(t.cond)|;
    HeadParts(code, top, OpsCode(t.cond), Jump(JUMP_ZERO, n + 3), Jump(JUMP, n + 2));
    HoldsParts(code, update, OpsCode(t.update), Jump(JUMP, n));
    PastOps(takes, code, b, t.init);
    PastOps(takes, code, top, t.cond);
    PastJump(takes, code, test, JUMP_ZERO, n + 3);
    PastJump(takes, code, test + |Jump(JUMP_ZERO, n + 3)|, JUMP, n + 2);
    PastOps(takes, code, update, t.update);
    PastJump(takes, code, update + |OpsCode(t.update)|, JUMP, n);
    LabelsOnBoundaries(takes, code, labels, t.body, true, body, n + 4, n + 3, n + 1);
    PastJump(takes, code, body + |Code(t.body, n + 4, n + 3, n + 1)|, JUMP, n + 1);
  }
}
