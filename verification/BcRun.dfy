/** Running compiled control flow: the jump cases of bc_program_exec, the meaning of the statement trees,
    and why the one does what the other says. */
module BcRun {
  import opened Positional
  import opened BcCode
  import opened BcParser

  /** What straight-line code does to a state; a condition leaves a value that can be tested and popped. */
  datatype Machine<!S> = Machine(takes: OpTest, exec: (int, seq<nat>, S) -> S, zero: S -> bool, pop: S -> S)

  function Eval<S>(m: Machine<S>, ops: seq<Ins>, s: S): S {
    if ops == [] then s else Eval(m, ops[1..], m.exec(ops[0].op, ops[0].args, s))
  }

  // ---------------------------------------------------------------- structured

  datatype Out<S> = Done(s: S) | Broke(s: S) | Continued(s: S) | Timeout

  /** The meaning of a statement; fuel bounds how often its loops may go round. */
  function Run<S>(m: Machine<S>, t: Stmt, s: S, fuel: nat): Out<S>
    decreases t, fuel, 0
  {
    match t
    case Skip => Done(s)
    case Do(ops) => Done(Eval(m, ops, s))
    case Seq(a, b) =>
      var o := Run(m, a, s, fuel);
      if o.Done? then Run(m, b, o.s, fuel) else o
    case If(c, b) =>
      var x := Eval(m, c, s);
      if m.zero(x) then Done(m.pop(x)) else Run(m, b, m.pop(x), fuel)
    case IfElse(c, b, e) =>
      var x := Eval(m, c, s);
      if m.zero(x) then Run(m, e, m.pop(x), fuel) else Run(m, b, m.pop(x), fuel)
    case While(c, b) =>
      var x := Eval(m, c, s);
      if m.zero(x) then Done(m.pop(x))
      else
        var o := Run(m, b, m.pop(x), fuel);
        if o.Timeout? || fuel == 0 then Timeout
        else if o.Broke? then Done(o.s)
        else Run(m, t, o.s, fuel - 1)
    case For(i, c, u, b) => RunFor(m, c, u, b, Eval(m, i, s), fuel)
    case Break => Broke(s)
    case Continue => Continued(s)
  }

  function RunFor<S>(m: Machine<S>, c: seq<Ins>, u: seq<Ins>, b: Stmt, s: S, fuel: nat): Out<S>
    decreases b, fuel, 1
  {
    var x := Eval(m, c, s);
    if m.zero(x) then Done(m.pop(x))
    else
      var o := Run(m, b, m.pop(x), fuel);
      if o.Timeout? || fuel == 0 then Timeout
      else if o.Broke? then Done(o.s)
      else RunFor(m, c, u, b, Eval(m, u, o.s), fuel - 1)
  }

  // ---------------------------------------------------------------- byte code

  datatype Config<S> = Config(pc: nat, s: S)

  /** One turn of bc_program_exec's loop; past the end of the code it stops. */
  function Step<S>(m: Machine<S>, code: seq<int>, labels: seq<nat>, x: Config<S>): Config<S> {
    if x.pc >= |code| then x
    else
      var op := code[x.pc];
      if op == JUMP || op == JUMP_ZERO then
        var (idx, next) := ReadIndex(code, x.pc + 1);
        var cond := op == JUMP_ZERO && m.zero(x.s);
        var s := if op == JUMP_ZERO then m.pop(x.s) else x.s;
        if (op == JUMP || cond) && idx < |labels| then Config(labels[idx], s) else Config(next, s)
      else
        var (args, next) := ReadOperands(code, x.pc + 1, m.takes(op));
        Config(next, m.exec(op, args, x.s))
  }

  function Steps<S>(m: Machine<S>, code: seq<int>, labels: seq<nat>, x: Config<S>, n: nat): Config<S>
    decreases n
  {
    if n == 0 then x else Steps(m, code, labels, Step(m, code, labels, x), n - 1)
  }

  lemma {:induction false} StepsAdd<S>(m: Machine<S>, code: seq<int>, labels: seq<nat>, x: Config<S>, j: nat, k: nat)
    ensures Steps(m, code, labels, x, j + k) == Steps(m, code, labels, Steps(m, code, labels, x, j), k)
    decreases j
  {
    if j > 0 { StepsAdd(m, code, labels, Step(m, code, labels, x), j - 1, k); }
  }

  /** The dispatch loop of bc_program_exec on the instructions that matter here, for at most `budget` of them. */
  method Exec<S>(m: Machine<S>, code: seq<int>, labels: seq<nat>, s: S, budget: nat) returns (x: Config<S>)
    requires forall i :: 0 <= i < |labels| ==> labels[i] != SIZE_MAX
    ensures x == Steps(m, code, labels, Config(0, s), budget)
  {
    hide ReadIndex, ReadOperands;
    var pc: nat := 0;
    var state, n := s, budget;
    while pc < |code| && n > 0
      invariant Steps(m, code, labels, Config(pc, state), n) == Steps(m, code, labels, Config(0, s), budget)
      decreases n
    {
      var inst, cond := code[pc], false;
      ghost var before := Config(pc, state);
      pc := pc + 1;
      if inst == JUMP || inst == JUMP_ZERO {
        if inst == JUMP_ZERO {
          cond := m.zero(state);
          state := m.pop(state);
        }
        var (idx, next) := ReadIndex(code, pc);
        pc := next;
        if (inst == JUMP || cond) && idx < |labels| {
          pc := labels[idx];
        }
      } else {
        var (args, next) := ReadOperands(code, pc, m.takes(inst));
        pc := next;
        state := m.exec(inst, args, state);
      }
      assert Config(pc, state) == Step(m, code, labels, before);
      n := n - 1;
    }
    StoppedStays(m, code, labels, Config(pc, state), n);
    x := Config(pc, state);
  }

  lemma {:induction false} StoppedStays<S>(m: Machine<S>, code: seq<int>, labels: seq<nat>, x: Config<S>, n: nat)
    ensures x.pc >= |code| || n == 0 ==> Steps(m, code, labels, x, n) == x
    decreases n
  {
    if n > 0 && x.pc >= |code| { StoppedStays(m, code, labels, x, n - 1); }
  }

  /** The code holds this piece at pc. */
  predicate Holds(code: seq<int>, pc: nat, piece: seq<int>) {
    pc + |piece| <= |code| && code[pc..pc + |piece|] == piece
  }

  lemma HoldsParts(code: seq<int>, pc: nat, x: seq<int>, y: seq<int>)
    requires Holds(code, pc, x + y)
    ensures Holds(code, pc, x) && Holds(code, pc + |x|, y)
  {
    var p := code[pc..pc + |x + y|];
    assert code[pc..pc + |x|] == p[..|x|] == x;
    assert code[pc + |x|..pc + |x| + |y|] == p[|x|..] == y;
  }

  lemma JumpStep<S>(m: Machine<S>, code: seq<int>, labels: seq<nat>, pc: nat, op: int, idx: nat, s: S)
    requires Holds(code, pc, Jump(op, idx)) && (op == JUMP || op == JUMP_ZERO) && idx < |labels|
    ensures pc < |code|
    ensures Step(m, code, labels, Config(pc, s))
         == if op == JUMP then Config(labels[idx], s)
            else if m.zero(s) then Config(labels[idx], m.pop(s)) else Config(pc + |Jump(op, idx)|, m.pop(s))
  {
    HoldsParts(code, pc, [op], Operand(idx));
    assert code[pc..pc + 1][0] == op;
    IndexRoundTrip(code, pc + 1, idx);
  }

  lemma InsStep<S>(m: Machine<S>, code: seq<int>, labels: seq<nat>, pc: nat, ins: Ins, s: S)
    requires Holds(code, pc, InsCode(ins)) && Plain(m.takes, [ins])
    ensures Step(m, code, labels, Config(pc, s)) == Config(pc + |InsCode(ins)|, m.exec(ins.op, ins.args, s))
  {
    hide Operands;
    assert [ins][0] == ins;
    HoldsParts(code, pc, [ins.op], Operands(ins.args));
    OperandsRoundTrip(code, pc + 1, ins.args);
    assert code[pc..pc + |InsCode(ins)|][0] == ins.op;
  }

  /** Straight-line code takes one step an instruction. */
  lemma {:induction false} OpsSteps<S>(m: Machine<S>, code: seq<int>, labels: seq<nat>, pc: nat, ops: seq<Ins>, s: S)
    requires Holds(code, pc, OpsCode(ops)) && Plain(m.takes, ops)
    ensures Steps(m, code, labels, Config(pc, s), |ops|) == Config(pc + |OpsCode(ops)|, Eval(m, ops, s))
    decreases |ops|
  {
    if ops != [] {
      var head := InsCode(ops[0]);
      HoldsParts(code, pc, head, OpsCode(ops[1..]));
      InsStep(m, code, labels, pc, ops[0], s);
      OpsSteps(m, code, labels, pc + |head|, ops[1..], m.exec(ops[0].op, ops[0].args, s));
    }
  }

  // ------------------------------------------------------ where a statement stands

  /** The statement's code is at b and its labels are where it made them. */
  predicate Placed(code: seq<int>, labels: seq<nat>, t: Stmt, b: nat, n: nat, brk: nat, cont: nat) {
    && Holds(code, b, Code(t, n, brk, cont))
    && n + LabelCount(t) <= |labels| && labels[n..n + LabelCount(t)] == Labels(t, b, n, brk, cont)
  }

  /** Where control goes after a statement. */
  function Target<S>(o: Out<S>, end: nat, labels: seq<nat>, brk: nat, cont: nat): nat {
    if o.Broke? && brk < |labels| then labels[brk] else if o.Continued? && cont < |labels| then labels[cont] else end
  }

  lemma LabelsParts(labels: seq<nat>, n: nat, x: seq<nat>, y: seq<nat>)
    requires n + |x| + |y| <= |labels| && labels[n..n + |x| + |y|] == x + y
    ensures labels[n..n + |x|] == x && labels[n + |x|..n + |x| + |y|] == y
  {
    var p := labels[n..n + |x| + |y|];
    assert labels[n..n + |x|] == p[..|x|];
    assert labels[n + |x|..n + |x| + |y|] == p[|x|..];
  }

  lemma SeqParts(code: seq<int>, labels: seq<nat>, x: Stmt, y: Stmt, b: nat, n: nat, brk: nat, cont: nat)
    requires Placed(code, labels, Seq(x, y), b, n, brk, cont)
    ensures var mid := b + |Code(x, n, brk, cont)|;
            Placed(code, labels, x, b, n, brk, cont) && Placed(code, labels, y, mid, n + LabelCount(x), brk, cont)
            && mid + |Code(y, n + LabelCount(x), brk, cont)| == b + |Code(Seq(x, y), n, brk, cont)|
  {
    hide Code, Labels, LabelCount;
    SeqUnfold(x, y, b, n, brk, cont);
    SeqCount(x, y);
    var mid := b + |Code(x, n, brk, cont)|;
    LabelsCounted(x, b, n, brk, cont);
    LabelsCounted(y, mid, n + LabelCount(x), brk, cont);
    HoldsParts(code, b, Code(x, n, brk, cont), Code(y, n + LabelCount(x), brk, cont));
    LabelsParts(labels, n, Labels(x, b, n, brk, cont), Labels(y, mid, n + LabelCount(x), brk, cont));
  }

  lemma SeqCount(x: Stmt, y: Stmt)
    ensures LabelCount(Seq(x, y)) == LabelCount(x) + LabelCount(y)
  {
  }

  lemma IfUnfold(c: seq<Ins>, t: Stmt, b: nat, n: nat, brk: nat, cont: nat)
    ensures var head, body := OpsCode(c) + Jump(JUMP_ZERO, n), Code(t, n + 1, brk, cont);
            Code(If(c, t), n, brk, cont) == head + body && LabelCount(If(c, t)) == 1 + LabelCount(t)
            && Labels(If(c, t), b, n, brk, cont) == [b + |head + body|] + Labels(t, b + |head|, n + 1, brk, cont)
  {
    hide OpsCode, Jump;
  }

  /** A condition and its test. */
  lemma HeadParts(code: seq<int>, b: nat, x: seq<int>, y: seq<int>, rest: seq<int>)
    requires Holds(code, b, x + y + rest)
    ensures Holds(code, b, x) && Holds(code, b + |x|, y) && Holds(code, b + |x| + |y|, rest)
  {
    HoldsParts(code, b, x + y, rest);
    HoldsParts(code, b, x, y);
  }

  lemma OneLabel(labels: seq<nat>, n: nat, x: nat, rest: seq<nat>)
    requires n + 1 + |rest| <= |labels| && labels[n..n + 1 + |rest|] == [x] + rest
    ensures labels[n] == x && labels[n + 1..n + 1 + |rest|] == rest
  {
    LabelsParts(labels, n, [x], rest);
    assert labels[n..n + 1][0] == labels[n];
  }

  lemma IfParts(code: seq<int>, labels: seq<nat>, c: seq<Ins>, t: Stmt, b: nat, n: nat, brk: nat, cont: nat)
    requires Placed(code, labels, If(c, t), b, n, brk, cont)
    ensures var test := b + |OpsCode(c)|;
            var body := test + |Jump(JUMP_ZERO, n)|;
            Holds(code, b, OpsCode(c)) && Holds(code, test, Jump(JUMP_ZERO, n))
            && Placed(code, labels, t, body, n + 1, brk, cont)
            && n < |labels| && labels[n] == b + |Code(If(c, t), n, brk, cont)| == body + |Code(t, n + 1, brk, cont)|
  {
    hide Code, Labels, OpsCode, Jump, LabelCount;
    var oc, jz, ct := OpsCode(c), Jump(JUMP_ZERO, n), Code(t, n + 1, brk, cont);
    IfUnfold(c, t, b, n, brk, cont);
    LabelsCounted(t, b + |oc + jz|, n + 1, brk, cont);
    HeadParts(code, b, oc, jz, ct);
    OneLabel(labels, n, b + |oc + jz + ct|, Labels(t, b + |oc + jz|, n + 1, brk, cont));
  }

  lemma IfElseParts(code: seq<int>, labels: seq<nat>, s: Stmt, b: nat, n: nat, brk: nat, cont: nat)
    requires s.IfElse? && Placed(code, labels, s, b, n, brk, cont)
    ensures var over := n + 1 + LabelCount(s.yes);
            var test := b + |OpsCode(s.cond)|;
            var yes := test + |Jump(JUMP_ZERO, n)|;
            var leave := yes + |Code(s.yes, n + 1, brk, cont)|;
            var no := leave + |Jump(JUMP, over)|;
            Holds(code, b, OpsCode(s.cond)) && Holds(code, test, Jump(JUMP_ZERO, n)) && Holds(code, leave, Jump(JUMP, over))
            && Placed(code, labels, s.yes, yes, n + 1, brk, cont) && Placed(code, labels, s.no, no, over + 1, brk, cont)
            && over < |labels| && labels[n] == no
            && labels[over] == b + |Code(s, n, brk, cont)| == no + |Code(s.no, over + 1, brk, cont)|
  {
    hide Code, Labels, OpsCode, Jump, LabelCount;
    var k := LabelCount(s.yes);
    var oc, jz, y, j := OpsCode(s.cond), Jump(JUMP_ZERO, n), Code(s.yes, n + 1, brk, cont), Jump(JUMP, n + 1 + k);
    var e := Code(s.no, n + 2 + k, brk, cont);
    IfElseUnfold(s, b, n, brk, cont);
    IfElseCount(s);
    var head, yes := oc + jz, y + j;
    var l1 := Labels(s.yes, b + |head|, n + 1, brk, cont);
    var l2 := Labels(s.no, b + |head| + |yes|, n + 2 + k, brk, cont);
    LabelsCounted(s.yes, b + |head|, n + 1, brk, cont);
    LabelsCounted(s.no, b + |head| + |yes|, n + 2 + k, brk, cont);
    HeadParts(code, b, head, yes, e);
    HoldsParts(code, b, oc, jz);
    HoldsParts(code, b + |head|, y, j);
    var x, z := b + |head| + |yes|, b + |head + yes + e|;
    assert [x] + l1 + [z] + l2 == [x] + (l1 + ([z] + l2));
    OneLabel(labels, n, x, l1 + ([z] + l2));
    LabelsParts(labels, n + 1, l1, [z] + l2);
    OneLabel(labels, n + 1 + k, z, l2);
  }

  lemma IfElseCount(s: Stmt)
    requires s.IfElse?
    ensures LabelCount(s) == 2 + LabelCount(s.yes) + LabelCount(s.no)
  {
  }

  lemma WhileUnfold(c: seq<Ins>, t: Stmt, b: nat, n: nat, brk: nat, cont: nat)
    ensures var head, body := OpsCode(c) + Jump(JUMP_ZERO, n + 1), Code(t, n + 2, n + 1, n);
            var all := head + body + Jump(JUMP, n);
            Code(While(c, t), n, brk, cont) == all && LabelCount(While(c, t)) == 2 + LabelCount(t)
            && Labels(While(c, t), b, n, brk, cont) == [b, b + |all|] + Labels(t, b + |head|, n + 2, n + 1, n)
  {
    hide OpsCode, Jump;
  }

  lemma WhileParts(code: seq<int>, labels: seq<nat>, c: seq<Ins>, t: Stmt, b: nat, n: nat, brk: nat, cont: nat)
    requires Placed(code, labels, While(c, t), b, n, brk, cont)
    ensures var test := b + |OpsCode(c)|;
            var body := test + |Jump(JUMP_ZERO, n + 1)|;
            var back := body + |Code(t, n + 2, n + 1, n)|;
            Holds(code, b, OpsCode(c)) && Holds(code, test, Jump(JUMP_ZERO, n + 1)) && Holds(code, back, Jump(JUMP, n))
            && Placed(code, labels, t, body, n + 2, n + 1, n)
            && n + 1 < |labels| && labels[n] == b && labels[n + 1] == b + |Code(While(c, t), n, brk, cont)|
            && back + |Jump(JUMP, n)| == b + |Code(While(c, t), n, brk, cont)|
  {
    hide Code, Labels, OpsCode, Jump, LabelCount;
    var oc, jz, ct, j := OpsCode(c), Jump(JUMP_ZERO, n + 1), Code(t, n + 2, n + 1, n), Jump(JUMP, n);
    WhileUnfold(c, t, b, n, brk, cont);
    LabelsCounted(t, b + |oc + jz|, n + 2, n + 1, n);
    HeadParts(code, b, oc + jz, ct, j);
    HoldsParts(code, b, oc, jz);
    var z, lt := b + |oc + jz + ct + j|, Labels(t, b + |oc + jz|, n + 2, n + 1, n);
    assert [b, z] + lt == [b] + ([z] + lt);
    OneLabel(labels, n, b, [z] + lt);
    OneLabel(labels, n + 1, z, lt);
  }

  lemma ForUnfold(s: Stmt, b: nat, n: nat, brk: nat, cont: nat)
    requires s.For?
    ensures var start := OpsCode(s.init);
            var head, update := ForHead(s.cond, n), ForUpdate(s.update, n);
            var body, back := Code(s.body, n + 4, n + 3, n + 1), Jump(JUMP, n + 1);
            var top := b + |start|;
            Code(s, n, brk, cont) == start + head + update + body + back && LabelCount(s) == 4 + LabelCount(s.body)
            && Labels(s, b, n, brk, cont)
               == [top, top + |head|, top + |head| + |update|, b + |Code(s, n, brk, cont)|]
                  + Labels(s.body, top + |head| + |update|, n + 4, n + 3, n + 1)
  {
    hide OpsCode, Jump, ForHead, ForUpdate;
  }

  lemma ForParts(code: seq<int>, labels: seq<nat>, s: Stmt, b: nat, n: nat, brk: nat, cont: nat)
    requires s.For? && Placed(code, labels, s, b, n, brk, cont)
    ensures var top := b + |OpsCode(s.init)|;
            var update := top + |ForHead(s.cond, n)|;
            var body := update + |ForUpdate(s.update, n)|;
            var back := body + |Code(s.body, n + 4, n + 3, n + 1)|;
            Holds(code, b, OpsCode(s.init)) && Holds(code, top, ForHead(s.cond, n))
            && Holds(code, update, ForUpdate(s.update, n)) && Holds(code, back, Jump(JUMP, n + 1))
            && Placed(code, labels, s.body, body, n + 4, n + 3, n + 1)
            && n + 3 < |labels| && labels[n] == top && labels[n + 1] == update && labels[n + 2] == body
            && labels[n + 3] == b + |Code(s, n, brk, cont)|
  {
    hide Code, Labels, OpsCode, Jump, LabelCount, ForHead, ForUpdate;
    ForUnfold(s, b, n, brk, cont);
    var start, head, update := OpsCode(s.init), ForHead(s.cond, n), ForUpdate(s.update, n);
    var ct, back := Code(s.body, n + 4, n + 3, n + 1), Jump(JUMP, n + 1);
    var top := b + |start|;
    var body := top + |head| + |update|;
    LabelsCounted(s.body, body, n + 4, n + 3, n + 1);
    assert start + head + update + ct + back == (start + head) + update + (ct + back);
    HeadParts(code, b, start + head, update, ct + back);
    HoldsParts(code, b, start, head);
    HoldsParts(code, body, ct, back);
    var z, lt := b + |Code(s, n, brk, cont)|, Labels(s.body, body, n + 4, n + 3, n + 1);
    assert [top, top + |head|, body, z] + lt == [top] + ([top + |head|] + ([body] + ([z] + lt)));
    OneLabel(labels, n, top, [top + |head|] + ([body] + ([z] + lt)));
    OneLabel(labels, n + 1, top + |head|, [body] + ([z] + lt));
    OneLabel(labels, n + 2, body, [z] + lt);
    OneLabel(labels, n + 3, z, lt);
  }

  // ------------------------------------------------- the code does what it should

  lemma Then<S>(m: Machine<S>, code: seq<int>, labels: seq<nat>, x: Config<S>, j: nat, k: nat)
    ensures Steps(m, code, labels, x, j + k) == Steps(m, code, labels, Steps(m, code, labels, x, j), k)
    ensures Steps(m, code, labels, x, 1) == Step(m, code, labels, x) && Steps(m, code, labels, x, 0) == x
  {
    StepsAdd(m, code, labels, x, j, k);
    assert Steps(m, code, labels, x, 1) == Steps(m, code, labels, Step(m, code, labels, x), 0);
  }

  /** A condition and its conditional jump. */
  lemma TestSteps<S>(m: Machine<S>, code: seq<int>, labels: seq<nat>, b: nat, c: seq<Ins>, target: nat, s: S)
    requires var test := b + |OpsCode(c)|;
             Holds(code, b, OpsCode(c)) && Holds(code, test, Jump(JUMP_ZERO, target))
    requires Plain(m.takes, c) && target < |labels|
    ensures var x := Eval(m, c, s);
            Steps(m, code, labels, Config(b, s), |c| + 1)
            == Config(if m.zero(x) then labels[target] else b + |OpsCode(c)| + |Jump(JUMP_ZERO, target)|, m.pop(x))
  {
    hide OpsCode, Jump, Eval, Steps, Step;
    OpsSteps(m, code, labels, b, c, s);
    Then(m, code, labels, Config(b, s), |c|, 1);
    var mid := Config(b + |OpsCode(c)|, Eval(m, c, s));
    Then(m, code, labels, mid, 0, 0);
    JumpStep(m, code, labels, mid.pc, JUMP_ZERO, target, mid.s);
  }

  /** An unconditional jump. */
  lemma JumpSteps<S>(m: Machine<S>, code: seq<int>, labels: seq<nat>, pc: nat, target: nat, s: S)
    requires Holds(code, pc, Jump(JUMP, target)) && target < |labels|
    ensures Steps(m, code, labels, Config(pc, s), 1) == Config(labels[target], s)
  {
    hide Jump, Steps, Step;
    Then(m, code, labels, Config(pc, s), 0, 0);
    JumpStep(m, code, labels, pc, JUMP, target, s);
  }

  /** Break and continue have labels to go to. */
  predicate InScope(inLoop: bool, labels: seq<nat>, brk: nat, cont: nat) {
    inLoop ==> brk < |labels| && cont < |labels|
  }

  ghost predicate Reached<S>(m: Machine<S>, code: seq<int>, labels: seq<nat>, b: nat, s: S, k: nat, pc: nat, s': S) {
    Steps(m, code, labels, Config(b, s), k) == Config(pc, s')
  }

  lemma ReachedThen<S>(m: Machine<S>, code: seq<int>, labels: seq<nat>, b: nat, s: S, j: nat, pc: nat, s1: S, k: nat, pc2: nat, s2: S)
    requires Reached(m, code, labels, b, s, j, pc, s1) && Reached(m, code, labels, pc, s1, k, pc2, s2)
    ensures Reached(m, code, labels, b, s, j + k, pc2, s2)
  {
    Then(m, code, labels, Config(b, s), j, k);
  }

  /** Outside loops, statements neither break nor continue. */
  lemma {:induction false} StaysInside<S>(m: Machine<S>, t: Stmt, inLoop: bool, s: S, fuel: nat)
    requires WellFormed(m.takes, t, inLoop)
    ensures var o := Run(m, t, s, fuel); o.Broke? || o.Continued? ==> inLoop
    decreases t, fuel, 0
  {
    match t
    case Seq(x, y) =>
      StaysInside(m, x, inLoop, s, fuel);
      var o := Run(m, x, s, fuel);
      if o.Done? { StaysInside(m, y, inLoop, o.s, fuel); }
    case If(c, x) => StaysInside(m, x, inLoop, m.pop(Eval(m, c, s)), fuel);
    case IfElse(c, x, y) =>
      StaysInside(m, x, inLoop, m.pop(Eval(m, c, s)), fuel);
      StaysInside(m, y, inLoop, m.pop(Eval(m, c, s)), fuel);
    case While(c, x) =>
      var v := Eval(m, c, s);
      var o := Run(m, x, m.pop(v), fuel);
      if !m.zero(v) && !o.Timeout? && fuel > 0 { StaysInside(m, t, inLoop, o.s, fuel - 1); }
    case For(i, c, u, x) => RoundsInside(m, c, u, x, Eval(m, i, s), fuel);
    case _ =>
  }

  lemma {:induction false} RoundsInside<S>(m: Machine<S>, c: seq<Ins>, u: seq<Ins>, x: Stmt, s: S, fuel: nat)
    ensures var o := RunFor(m, c, u, x, s, fuel); o.Done? || o.Timeout?
    decreases fuel
  {
    var v := Eval(m, c, s);
    var o := Run(m, x, m.pop(v), fuel);
    if !m.zero(v) && !o.Timeout? && fuel > 0 { RoundsInside(m, c, u, x, Eval(m, u, o.s), fuel - 1); }
  }

  /** If the statement comes to an end, so does its code, at the right place and with the same effect. */
  lemma {:induction false} Forward<S>(m: Machine<S>, code: seq<int>, labels: seq<nat>, t: Stmt, inLoop: bool, b: nat, n: nat,
                                      brk: nat, cont: nat, s: S, fuel: nat)
    returns (k: nat)
    requires Placed(code, labels, t, b, n, brk, cont) && WellFormed(m.takes, t, inLoop)
    requires InScope(inLoop, labels, brk, cont) && !Run(m, t, s, fuel).Timeout?
    ensures var o := Run(m, t, s, fuel);
            Reached(m, code, labels, b, s, k, Target(o, b + |Code(t, n, brk, cont)|, labels, brk, cont), o.s)
    decreases t, fuel, 2
  {
    hide Labels, OpsCode, Jump, Steps, Step, Eval;
    match t
    case Skip =>
      k := 0;
      Then(m, code, labels, Config(b, s), 0, 0);
    case Do(ops) =>
      k := |ops|;
      OpsSteps(m, code, labels, b, ops, s);
    case Seq(x, y) => k := ForwardSeq(m, code, labels, x, y, inLoop, b, n, brk, cont, s, fuel);
    case If(c, x) =>
      IfParts(code, labels, c, x, b, n, brk, cont);
      TestSteps(m, code, labels, b, c, n, s);
      var v := Eval(m, c, s);
      k := |c| + 1;
      if !m.zero(v) {
        var body := b + |OpsCode(c)| + |Jump(JUMP_ZERO, n)|;
        var j := Forward(m, code, labels, x, inLoop, body, n + 1, brk, cont, m.pop(v), fuel);
        var o := Run(m, x, m.pop(v), fuel);
        ReachedThen(m, code, labels, b, s, k, body, m.pop(v), j, Target(o, body + |Code(x, n + 1, brk, cont)|, labels, brk, cont), o.s);
        k := k + j;
      }
    case IfElse(_, _, _) => k := ForwardIfElse(m, code, labels, t, inLoop, b, n, brk, cont, s, fuel);
    case While(c, x) => k := ForwardWhile(m, code, labels, c, x, b, n, brk, cont, s, fuel);
    case For(_, _, _, _) => k := ForwardFor(m, code, labels, t, b, n, brk, cont, s, fuel);
    case Break =>
      k := 1;
      JumpSteps(m, code, labels, b, brk, s);
    case Continue =>
      k := 1;
      JumpSteps(m, code, labels, b, cont, s);
  }

  lemma {:induction false} ForwardSeq<S>(m: Machine<S>, code: seq<int>, labels: seq<nat>, x: Stmt, y: Stmt, inLoop: bool, b: nat, n: nat,
                                         brk: nat, cont: nat, s: S, fuel: nat)
    returns (k: nat)
    requires Placed(code, labels, Seq(x, y), b, n, brk, cont) && WellFormed(m.takes, Seq(x, y), inLoop)
    requires InScope(inLoop, labels, brk, cont) && !Run(m, Seq(x, y), s, fuel).Timeout?
    ensures var o := Run(m, Seq(x, y), s, fuel);
            Reached(m, code, labels, b, s, k, Target(o, b + |Code(Seq(x, y), n, brk, cont)|, labels, brk, cont), o.s)
    decreases Seq(x, y), fuel, 1
  {
    hide Labels, Code, OpsCode, Jump, Steps, Step, Eval, LabelCount, Reached;
    SeqParts(code, labels, x, y, b, n, brk, cont);
    var mid := b + |Code(x, n, brk, cont)|;
    k := Forward(m, code, labels, x, inLoop, b, n, brk, cont, s, fuel);
    var o := Run(m, x, s, fuel);
    StaysInside(m, x, inLoop, s, fuel);
    if o.Done? {
      var j := Forward(m, code, labels, y, inLoop, mid, n + LabelCount(x), brk, cont, o.s, fuel);
      var o2 := Run(m, y, o.s, fuel);
      ReachedThen(m, code, labels, b, s, k, mid, o.s, j,
                  Target(o2, mid + |Code(y, n + LabelCount(x), brk, cont)|, labels, brk, cont), o2.s);
      k := k + j;
    }
  }

  lemma {:induction false} ForwardIfElse<S>(m: Machine<S>, code: seq<int>, labels: seq<nat>, t: Stmt, inLoop: bool, b: nat, n: nat,
                                            brk: nat, cont: nat, s: S, fuel: nat)
    returns (k: nat)
    requires t.IfElse? && Placed(code, labels, t, b, n, brk, cont) && WellFormed(m.takes, t, inLoop)
    requires InScope(inLoop, labels, brk, cont) && !Run(m, t, s, fuel).Timeout?
    ensures var o := Run(m, t, s, fuel);
            Reached(m, code, labels, b, s, k, Target(o, b + |Code(t, n, brk, cont)|, labels, brk, cont), o.s)
    decreases t, fuel, 1
  {
    hide Labels, Code, OpsCode, Jump, Steps, Step, Eval, LabelCount;
    IfElseParts(code, labels, t, b, n, brk, cont);
    TestSteps(m, code, labels, b, t.cond, n, s);
    var v := Eval(m, t.cond, s);
    var over := n + 1 + LabelCount(t.yes);
    var yes := b + |OpsCode(t.cond)| + |Jump(JUMP_ZERO, n)|;
    var leave := yes + |Code(t.yes, n + 1, brk, cont)|;
    var no := leave + |Jump(JUMP, over)|;
    k := |t.cond| + 1;
    if m.zero(v) {
      var j := Forward(m, code, labels, t.no, inLoop, no, over + 1, brk, cont, m.pop(v), fuel);
      var o := Run(m, t.no, m.pop(v), fuel);
      ReachedThen(m, code, labels, b, s, k, no, m.pop(v), j, Target(o, no + |Code(t.no, over + 1, brk, cont)|, labels, brk, cont), o.s);
      k := k + j;
    } else {
      var j := Forward(m, code, labels, t.yes, inLoop, yes, n + 1, brk, cont, m.pop(v), fuel);
      var o := Run(m, t.yes, m.pop(v), fuel);
      StaysInside(m, t.yes, inLoop, m.pop(v), fuel);
      ReachedThen(m, code, labels, b, s, k, yes, m.pop(v), j, Target(o, leave, labels, brk, cont), o.s);
      k := k + j;
      if o.Done? {
        JumpSteps(m, code, labels, leave, over, o.s);
        ReachedThen(m, code, labels, b, s, k, leave, o.s, 1, labels[over], o.s);
        k := k + 1;
      }
    }
  }

  lemma {:induction false} ForwardWhile<S>(m: Machine<S>, code: seq<int>, labels: seq<nat>, c: seq<Ins>, x: Stmt, b: nat, n: nat,
                                           brk: nat, cont: nat, s: S, fuel: nat)
    returns (k: nat)
    requires Placed(code, labels, While(c, x), b, n, brk, cont) && WellFormed(m.takes, While(c, x), false)
    requires !Run(m, While(c, x), s, fuel).Timeout?
    ensures var o := Run(m, While(c, x), s, fuel);
            o.Done? && Reached(m, code, labels, b, s, k, b + |Code(While(c, x), n, brk, cont)|, o.s)
    decreases While(c, x), fuel, 1
  {
    hide Labels, Code, OpsCode, Jump, Steps, Step, Eval, LabelCount;
    WhileParts(code, labels, c, x, b, n, brk, cont);
    TestSteps(m, code, labels, b, c, n + 1, s);
    var v := Eval(m, c, s);
    k := |c| + 1;
    if !m.zero(v) {
      var body := b + |OpsCode(c)| + |Jump(JUMP_ZERO, n + 1)|;
      var back := body + |Code(x, n + 2, n + 1, n)|;
      var j := Forward(m, code, labels, x, true, body, n + 2, n + 1, n, m.pop(v), fuel);
      var o := Run(m, x, m.pop(v), fuel);
      ReachedThen(m, code, labels, b, s, k, body, m.pop(v), j, Target(o, back, labels, n + 1, n), o.s);
      k := k + j;
      if o.Done? {
        JumpSteps(m, code, labels, back, n, o.s);
        ReachedThen(m, code, labels, b, s, k, back, o.s, 1, labels[n], o.s);
        k := k + 1;
      }
      if !o.Broke? {
        var i := ForwardWhile(m, code, labels, c, x, b, n, brk, cont, o.s, fuel - 1);
        var r := Run(m, While(c, x), o.s, fuel - 1);
        ReachedThen(m, code, labels, b, s, k, b, o.s, i, b + |Code(While(c, x), n, brk, cont)|, r.s);
        k := k + i;
      }
    }
  }

  lemma {:induction false} ForwardFor<S>(m: Machine<S>, code: seq<int>, labels: seq<nat>, t: Stmt, b: nat, n: nat,
                                         brk: nat, cont: nat, s: S, fuel: nat)
    returns (k: nat)
    requires t.For? && Placed(code, labels, t, b, n, brk, cont) && WellFormed(m.takes, t, false)
    requires !Run(m, t, s, fuel).Timeout?
    ensures var o := Run(m, t, s, fuel);
            o.Done? && Reached(m, code, labels, b, s, k, b + |Code(t, n, brk, cont)|, o.s)
    decreases t, fuel, 1
  {
    hide Labels, Code, OpsCode, Jump, Steps, Step, Eval, LabelCount, ForHead, ForUpdate;
    ForParts(code, labels, t, b, n, brk, cont);
    var top := b + |OpsCode(t.init)|;
    var s0 := Eval(m, t.init, s);
    OpsSteps(m, code, labels, b, t.init, s);
    var j := ForwardRounds(m, code, labels, t, b, n, brk, cont, s0, fuel);
    var o := RunFor(m, t.cond, t.update, t.body, s0, fuel);
    ReachedThen(m, code, labels, b, s, |t.init|, top, s0, j, labels[n + 3], o.s);
    k := |t.init| + j;
  }

  lemma {:induction false} ForwardRounds<S>(m: Machine<S>, code: seq<int>, labels: seq<nat>, t: Stmt, b: nat, n: nat,
                                            brk: nat, cont: nat, s: S, fuel: nat)
    returns (k: nat)
    requires t.For? && Placed(code, labels, t, b, n, brk, cont) && WellFormed(m.takes, t, false)
    requires !RunFor(m, t.cond, t.update, t.body, s, fuel).Timeout?
    ensures var o := RunFor(m, t.cond, t.update, t.body, s, fuel);
            o.Done? && n + 3 < |labels|
            && Reached(m, code, labels, b + |OpsCode(t.init)|, s, k, labels[n + 3], o.s)
    decreases t.body, fuel, 3
  {
    hide Labels, Code, OpsCode, Jump, Steps, Step, Eval, LabelCount, ForHead, ForUpdate;
    ForParts(code, labels, t, b, n, brk, cont);
    var top := b + |OpsCode(t.init)|;
    var update := top + |ForHead(t.cond, n)|;
    var body := update + |ForUpdate(t.update, n)|;
    var back := body + |Code(t.body, n + 4, n + 3, n + 1)|;
    var v := Eval(m, t.cond, s);
    ForTest(m, code, labels, top, t.cond, n, s);
    k := |t.cond| + 1;
    if !m.zero(v) {
      k := k + 1;
      var j := Forward(m, code, labels, t.body, true, body, n + 4, n + 3, n + 1, m.pop(v), fuel);
      var o := Run(m, t.body, m.pop(v), fuel);
      ReachedThen(m, code, labels, top, s, k, body, m.pop(v), j, Target(o, back, labels, n + 3, n + 1), o.s);
      k := k + j;
      if o.Done? {
        JumpSteps(m, code, labels, back, n + 1, o.s);
        ReachedThen(m, code, labels, top, s, k, back, o.s, 1, labels[n + 1], o.s);
        k := k + 1;
      }
      if !o.Broke? {
        ForBack(m, code, labels, update, t.update, n, o.s);
        var s3 := Eval(m, t.update, o.s);
        ReachedThen(m, code, labels, top, s, k, update, o.s, |t.update| + 1, top, s3);
        k := k + |t.update| + 1;
        var i := ForwardRounds(m, code, labels, t, b, n, brk, cont, s3, fuel - 1);
        var r := RunFor(m, t.cond, t.update, t.body, s3, fuel - 1);
        ReachedThen(m, code, labels, top, s, k, top, s3, i, labels[n + 3], r.s);
        k := k + i;
      }
    }
  }

  /** The condition of a for loop: out when it is zero, over the update to the body when it is not. */
  lemma ForTest<S>(m: Machine<S>, code: seq<int>, labels: seq<nat>, top: nat, c: seq<Ins>, n: nat, s: S)
    requires Holds(code, top, ForHead(c, n)) && Plain(m.takes, c) && n + 3 < |labels|
    ensures var v := Eval(m, c, s);
            if m.zero(v) then Reached(m, code, labels, top, s, |c| + 1, labels[n + 3], m.pop(v))
            else Reached(m, code, labels, top, s, |c| + 2, labels[n + 2], m.pop(v))
  {
    hide OpsCode, Jump, Steps, Step, Eval;
    HeadParts(code, top, OpsCode(c), Jump(JUMP_ZERO, n + 3), Jump(JUMP, n + 2));
    TestSteps(m, code, labels, top, c, n + 3, s);
    var v := Eval(m, c, s);
    if !m.zero(v) {
      var pc := top + |OpsCode(c)| + |Jump(JUMP_ZERO, n + 3)|;
      JumpSteps(m, code, labels, pc, n + 2, m.pop(v));
      ReachedThen(m, code, labels, top, s, |c| + 1, pc, m.pop(v), 1, labels[n + 2], m.pop(v));
    }
  }

  lemma ForBack<S>(m: Machine<S>, code: seq<int>, labels: seq<nat>, update: nat, u: seq<Ins>, n: nat, s: S)
    requires Holds(code, update, ForUpdate(u, n)) && Plain(m.takes, u) && n < |labels|
    ensures Reached(m, code, labels, update, s, |u| + 1, labels[n], Eval(m, u, s))
  {
    hide OpsCode, Jump, Steps, Step, Eval;
    HoldsParts(code, update, OpsCode(u), Jump(JUMP, n));
    OpsSteps(m, code, labels, update, u, s);
    var pc := update + |OpsCode(u)|;
    JumpSteps(m, code, labels, pc, n, Eval(m, u, s));
    ReachedThen(m, code, labels, update, s, |u|, pc, Eval(m, u, s), 1, labels[n], Eval(m, u, s));
  }
}
