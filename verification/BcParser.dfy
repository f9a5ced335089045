/** The label emitters of bc/bc_parse.c: control flow compiled with back-patched labels. */
module BcParser {
  import opened BcCode

  /** An entry of the exit stack: a label still to be set, and whether it ends a loop. */
  datatype Exit = Exit(loop: bool, idx: nat)

  /** The label of the innermost loop's exit. */
  function LoopExitIdx(exits: seq<Exit>): int {
    if exits == [] then -1 else if exits[|exits| - 1].loop then exits[|exits| - 1].idx else LoopExitIdx(exits[..|exits| - 1])
  }

  class Parser {
    const takes: OpTest
    var code: seq<int>
    var labels: seq<nat>
    var exits: seq<Exit>
    var conds: seq<nat>

    constructor (takes: OpTest)
      ensures this.takes == takes && code == [] && labels == [] && exits == [] && conds == []
    {
      this.takes, code, labels, exits, conds := takes, [], [], [], [];
    }

    /** bc_parse_push and bc_parse_pushIndex, as a jump uses them. */
    method PushJump(op: int, idx: nat)
      requires idx <= SIZE_MAX
      modifies `code
      ensures code == old(code) + Jump(op, idx)
    {
      hide Operand;
      var c := code + [op];
      c := PushIndex(c, idx);
      assert c == code + Jump(op, idx) by { assert (code + [op]) + Operand(idx) == code + ([op] + Operand(idx)); }
      code := c;
    }

    /** An instruction and its indices. */
    method PushIns(ins: Ins, ghost rest: seq<int>)
      requires forall i :: 0 <= i < |ins.args| ==> ins.args[i] <= SIZE_MAX
      modifies `code
      ensures code == old(code) + InsCode(ins) && code + rest == old(code) + (InsCode(ins) + rest)
    {
      hide Operand;
      code := code + [ins.op];
      ghost var from := code;
      var j := 0;
      assert ins.args[0..] == ins.args;
      while j < |ins.args|
        invariant j <= |ins.args| && code + Operands(ins.args[j..]) == from + Operands(ins.args)
      {
        OneOperand(ins.args, j, code);
        code := PushIndex(code, ins.args[j]);
        j := j + 1;
      }
      InsWhole(old(code), ins, rest);
    }

    /** Straight-line code. */
    method PushOps(ops: seq<Ins>)
      requires Words(ops)
      modifies `code
      ensures code == old(code) + OpsCode(ops)
    {
      hide Operand, InsCode;
      var i := 0;
      assert ops[0..] == ops;
      while i < |ops|
        invariant i <= |ops| && code + OpsCode(ops[i..]) == old(code) + OpsCode(ops)
      {
        InsUnfolds(ops, i);
        PushIns(ops[i], OpsCode(ops[i + 1..]));
        i := i + 1;
      }
    }

    /** bc_parse_setLabel: the topmost open label is here. */
    method SetLabel()
      requires exits != [] && exits[|exits| - 1].idx < |labels|
      modifies `labels, `exits
      ensures labels == old(labels)[old(exits[|exits| - 1]).idx := |code|] && exits == old(exits[..|exits| - 1])
    {
      var ip := exits[|exits| - 1];
      labels := labels[ip.idx := |code|];
      exits := exits[..|exits| - 1];
    }

    /** bc_parse_createLabel. */
    method CreateLabel(idx: nat)
      modifies `labels
      ensures labels == old(labels) + [idx]
    {
      labels := labels + [idx];
    }

    /** bc_parse_createCondLabel. */
    method CreateCondLabel(idx: nat)
      modifies `labels, `conds
      ensures labels == old(labels) + [|code|] && conds == old(conds) + [idx]
    {
      CreateLabel(|code|);
      conds := conds + [idx];
    }

    /** bc_parse_createExitLabel. */
    method CreateExitLabel(idx: nat, loop: bool)
      modifies `labels, `exits
      ensures labels == old(labels) + [SIZE_MAX] && exits == old(exits) + [Exit(loop, idx)]
    {
      exits := exits + [Exit(loop, idx)];
      CreateLabel(SIZE_MAX);
    }

    /** bc_parse_loopExit: break looks down the exit stack for a loop's exit, continue takes the top condition. */
    method LoopExit(isBreak: bool)
      requires LoopExitIdx(exits) >= 0 && LoopExitIdx(exits) <= SIZE_MAX && conds != [] && conds[|conds| - 1] <= SIZE_MAX
      modifies `code
      ensures code == old(code) + Jump(JUMP, if isBreak then LoopExitIdx(exits) else conds[|conds| - 1])
    {
      var target := 0;
      if isBreak {
        var i := |exits| - 1;
        var ip := exits[i];
        assert exits[..i + 1] == exits;
        while !ip.loop && i >= 0
          invariant -1 <= i < |exits|
          invariant ip.loop ==> ip.idx == LoopExitIdx(exits)
          invariant !ip.loop ==> LoopExitIdx(exits[..i + 1]) == LoopExitIdx(exits)
          decreases i
        {
          assert exits[..i + 1][..i] == exits[..i];
          ip := exits[i];
          i := i - 1;
        }
        target := ip.idx;
      } else {
        target := conds[|conds| - 1];
      }
      PushJump(JUMP, target);
    }

    /** The surroundings of a statement: where break and continue go. */
    predicate Scope(inLoop: bool, brk: nat, cont: nat)
      reads `exits, `conds
    {
      inLoop ==> LoopExitIdx(exits) == brk <= SIZE_MAX && conds != [] && conds[|conds| - 1] == cont <= SIZE_MAX
    }

    ghost predicate Ready(s: Stmt, inLoop: bool, brk: nat, cont: nat)
      reads `exits, `conds, `labels
    {
      WellFormed(takes, s, inLoop) && Scope(inLoop, brk, cont) && Small(s) && |labels| + LabelCount(s) <= SIZE_MAX
    }

    /** Compile one statement. Everything it opens it closes again, and every label it makes is set. */
    method Compile(s: Stmt, inLoop: bool, ghost brk: nat, ghost cont: nat)
      requires Ready(s, inLoop, brk, cont)
      modifies this
      ensures code == old(code) + Code(s, old(|labels|), brk, cont)
      ensures labels == old(labels) + Labels(s, old(|code|), old(|labels|), brk, cont)
      ensures exits == old(exits) && conds == old(conds)
      decreases s, 1
    {
      hide Operand, OpsCode, LabelCount;
      match s
      case Skip =>
      case Do(ops) => PushOps(ops);
      case Seq(_, _) => CompileSeq(s, inLoop, brk, cont);
      case If(_, _) => CompileIf(s, inLoop, brk, cont);
      case IfElse(_, _, _) => CompileIfElse(s, inLoop, brk, cont);
      case While(_, _) => CompileWhile(s, inLoop, brk, cont);
      case For(_, _, _, _) => CompileFor(s, inLoop, brk, cont);
      case Break => LoopExit(true);
      case Continue => LoopExit(false);
    }

    method CompileSeq(s: Stmt, inLoop: bool, ghost brk: nat, ghost cont: nat)
      requires s.Seq? && Ready(s, inLoop, brk, cont)
      modifies this
      ensures code == old(code) + Code(s, old(|labels|), brk, cont)
      ensures labels == old(labels) + Labels(s, old(|code|), old(|labels|), brk, cont)
      ensures exits == old(exits) && conds == old(conds)
      decreases s, 0
    {
      hide Operand, OpsCode, Code, Labels;
      LabelsCounted(s.first, |code|, |labels|, brk, cont);
      SeqDone(s, code, labels, brk, cont);
      Compile(s.first, inLoop, brk, cont);
      Compile(s.second, inLoop, brk, cont);
    }

    method CompileIf(s: Stmt, inLoop: bool, ghost brk: nat, ghost cont: nat)
      requires s.If? && Ready(s, inLoop, brk, cont)
      modifies this
      ensures code == old(code) + Code(s, old(|labels|), brk, cont)
      ensures labels == old(labels) + Labels(s, old(|code|), old(|labels|), brk, cont)
      ensures exits == old(exits) && conds == old(conds)
      decreases s, 0
    {
      hide Operand, OpsCode, Jump, Code, Labels;
      IfDone(s, code, labels, brk, cont);
      PushOps(s.cond);
      var idx := |labels|;
      PushJump(JUMP_ZERO, idx);
      InnerScope(exits, Exit(false, idx));
      CreateExitLabel(idx, false);
      Compile(s.body, inLoop, brk, cont);
      SetLabel();
    }

    method CompileIfElse(s: Stmt, inLoop: bool, ghost brk: nat, ghost cont: nat)
      requires s.IfElse? && Ready(s, inLoop, brk, cont)
      modifies this
      ensures code == old(code) + Code(s, old(|labels|), brk, cont)
      ensures labels == old(labels) + Labels(s, old(|code|), old(|labels|), brk, cont)
      ensures exits == old(exits) && conds == old(conds)
      decreases s, 0
    {
      hide Operand, OpsCode, Jump, Code, Labels;
      IfElseDone(s, code, labels, brk, cont);
      PushOps(s.cond);
      var idx := |labels|;
      PushJump(JUMP_ZERO, idx);
      InnerScope(exits, Exit(false, idx));
      CreateExitLabel(idx, false);
      LabelsCounted(s.yes, |code|, |labels|, brk, cont);
      Compile(s.yes, inLoop, brk, cont);
      idx := |labels|;
      PushJump(JUMP, idx);
      SetLabel();
      InnerScope(exits, Exit(false, idx));
      CreateExitLabel(idx, false);
      Compile(s.no, inLoop, brk, cont);
      SetLabel();
    }

    method CompileWhile(s: Stmt, inLoop: bool, ghost brk: nat, ghost cont: nat)
      requires s.While? && Ready(s, inLoop, brk, cont)
      modifies this
      ensures code == old(code) + Code(s, old(|labels|), brk, cont)
      ensures labels == old(labels) + Labels(s, old(|code|), old(|labels|), brk, cont)
      ensures exits == old(exits) && conds == old(conds)
      decreases s, 0
    {
      hide Operand, OpsCode, Jump, Code, Labels;
      WhileDone(s, code, labels, brk, cont);
      CreateCondLabel(|labels|);
      var idx := |labels|;
      InnerScope(exits, Exit(true, idx));
      CreateExitLabel(idx, true);
      PushOps(s.cond);
      PushJump(JUMP_ZERO, idx);
      Compile(s.body, true, idx, idx - 1);
      EndLoop();
    }

    method CompileFor(s: Stmt, inLoop: bool, ghost brk: nat, ghost cont: nat)
      requires s.For? && Ready(s, inLoop, brk, cont)
      modifies this
      ensures code == old(code) + Code(s, old(|labels|), brk, cont)
      ensures labels == old(labels) + Labels(s, old(|code|), old(|labels|), brk, cont)
      ensures exits == old(exits) && conds == old(conds)
      decreases s, 0
    {
      hide Operand, OpsCode, Jump, Code, Labels;
      ForDone(s, code, labels, brk, cont);
      PushOps(s.init);
      var condIdx := |labels|;
      var updateIdx := condIdx + 1;
      var bodyIdx := updateIdx + 1;
      var exitIdx := bodyIdx + 1;
      CreateLabel(|code|);
      PushOps(s.cond);
      PushJump(JUMP_ZERO, exitIdx);
      PushJump(JUMP, bodyIdx);
      CreateCondLabel(updateIdx);
      PushOps(s.update);
      PushJump(JUMP, condIdx);
      CreateLabel(|code|);
      InnerScope(exits, Exit(true, exitIdx));
      CreateExitLabel(exitIdx, true);
      Compile(s.body, true, exitIdx, updateIdx);
      EndLoop();
    }

    /** bc_parse_endBody for a loop: jump back to its condition, and the exit is here. */
    method EndLoop()
      requires conds != [] && conds[|conds| - 1] <= SIZE_MAX && exits != [] && exits[|exits| - 1].idx < |labels|
      modifies this
      ensures code == old(code) + Jump(JUMP, old(conds[|conds| - 1])) && conds == old(conds[..|conds| - 1])
      ensures labels == old(labels)[old(exits[|exits| - 1]).idx := |code|] && exits == old(exits[..|exits| - 1])
    {
      PushJump(JUMP, conds[|conds| - 1]);
      conds := conds[..|conds| - 1];
      SetLabel();
    }
  }

  /** What is pushed on the exit stack hides, or does not hide, the loop's exit below. */
  lemma InnerScope(exits: seq<Exit>, e: Exit)
    ensures LoopExitIdx(exits + [e]) == if e.loop then e.idx else LoopExitIdx(exits)
  {
    assert (exits + [e])[..|exits|] == exits;
  }

  // What the emitters leave behind, put together for each kind of statement.

  lemma SeqUnfold(a: Stmt, b: Stmt, o: nat, n: nat, brk: nat, cont: nat)
    ensures Code(Seq(a, b), n, brk, cont) == Code(a, n, brk, cont) + Code(b, n + LabelCount(a), brk, cont)
    ensures Labels(Seq(a, b), o, n, brk, cont)
         == Labels(a, o, n, brk, cont) + Labels(b, o + |Code(a, n, brk, cont)|, n + LabelCount(a), brk, cont)
  {
    hide LabelCount, OpsCode, Jump, ForHead, ForUpdate;
  }

  lemma Assoc<T>(a: seq<T>, b: seq<T>, c: seq<T>)
    ensures a + b + c == a + (b + c)
  {
  }

  lemma SeqDone(s: Stmt, code: seq<int>, labels: seq<nat>, brk: nat, cont: nat)
    requires s.Seq?
    ensures var n, o := |labels|, |code|;
            var one := Code(s.first, n, brk, cont);
            var two := Code(s.second, n + LabelCount(s.first), brk, cont);
            code + one + two == code + Code(s, n, brk, cont)
            && (labels + Labels(s.first, o, n, brk, cont)) + Labels(s.second, o + |one|, n + LabelCount(s.first), brk, cont)
               == labels + Labels(s, o, n, brk, cont)
  {
    hide Code, Labels, LabelCount;
    var n, o := |labels|, |code|;
    var one := Code(s.first, n, brk, cont);
    SeqUnfold(s.first, s.second, o, n, brk, cont);
    Assoc(code, one, Code(s.second, n + LabelCount(s.first), brk, cont));
    Assoc(labels, Labels(s.first, o, n, brk, cont), Labels(s.second, o + |one|, n + LabelCount(s.first), brk, cont));
  }

  lemma IfDone(s: Stmt, code: seq<int>, labels: seq<nat>, brk: nat, cont: nat)
    requires s.If?
    ensures var n := |labels|;
            var head := code + OpsCode(s.cond) + Jump(JUMP_ZERO, n);
            var done := head + Code(s.body, n + 1, brk, cont);
            done == code + Code(s, n, brk, cont)
            && (labels + [SIZE_MAX] + Labels(s.body, |head|, n + 1, brk, cont))[n := |done|]
               == labels + Labels(s, |code|, n, brk, cont)
  {
    hide OpsCode, Jump;
  }

  lemma IfElseUnfold(s: Stmt, o: nat, n: nat, brk: nat, cont: nat)
    requires s.IfElse?
    ensures var head := OpsCode(s.cond) + Jump(JUMP_ZERO, n);
            var yes := Code(s.yes, n + 1, brk, cont) + Jump(JUMP, n + 1 + LabelCount(s.yes));
            var no := Code(s.no, n + 2 + LabelCount(s.yes), brk, cont);
            Code(s, n, brk, cont) == head + yes + no
            && Labels(s, o, n, brk, cont)
               == [o + |head| + |yes|] + Labels(s.yes, o + |head|, n + 1, brk, cont)
                  + [o + |head + yes + no|] + Labels(s.no, o + |head| + |yes|, n + 2 + LabelCount(s.yes), brk, cont)
  {
    hide LabelCount, OpsCode, Jump, ForHead, ForUpdate;
    var head := OpsCode(s.cond) + Jump(JUMP_ZERO, n);
    var body := Code(s.yes, n + 1, brk, cont);
    var over := Jump(JUMP, n + 1 + LabelCount(s.yes));
    assert head + (body + over) == head + body + over;
  }

  lemma IfElseDone(s: Stmt, code: seq<int>, labels: seq<nat>, brk: nat, cont: nat)
    requires s.IfElse?
    ensures var n := |labels|;
            var head := code + OpsCode(s.cond) + Jump(JUMP_ZERO, n);
            var yes := head + Code(s.yes, n + 1, brk, cont) + Jump(JUMP, n + 1 + LabelCount(s.yes));
            var done := yes + Code(s.no, n + 2 + LabelCount(s.yes), brk, cont);
            var first := labels + [SIZE_MAX] + Labels(s.yes, |head|, n + 1, brk, cont);
            |first| == n + 1 + LabelCount(s.yes)
            && done == code + Code(s, n, brk, cont)
            && (first[n := |yes|] + [SIZE_MAX] + Labels(s.no, |yes|, n + 2 + LabelCount(s.yes), brk, cont))
               [n + 1 + LabelCount(s.yes) := |done|]
               == labels + Labels(s, |code|, n, brk, cont)
  {
    hide OpsCode, Jump, LabelCount, Code, Labels;
    var n, k := |labels|, LabelCount(s.yes);
    IfElseUnfold(s, |code|, n, brk, cont);
    var oc, jz, y, j := OpsCode(s.cond), Jump(JUMP_ZERO, n), Code(s.yes, n + 1, brk, cont), Jump(JUMP, n + 1 + k);
    var e := Code(s.no, n + 2 + k, brk, cont);
    LabelsCounted(s.yes, |code + oc + jz|, n + 1, brk, cont);
    FiveParts(code, oc, jz, y, j, e);
    TwoPatches(labels, Labels(s.yes, |code + oc + jz|, n + 1, brk, cont),
               Labels(s.no, |code + oc + jz + y + j|, n + 2 + k, brk, cont), |code + oc + jz + y + j|, |code + oc + jz + y + j + e|);
  }

  lemma FiveParts(c: seq<int>, v: seq<int>, w: seq<int>, x: seq<int>, y: seq<int>, z: seq<int>)
    ensures c + v + w + x + y + z == c + ((v + w) + (x + y) + z)
  {
  }

  lemma TwoPatches(labels: seq<nat>, l1: seq<nat>, l2: seq<nat>, x: nat, y: nat)
    ensures var n := |labels|;
            ((labels + [SIZE_MAX] + l1)[n := x] + [SIZE_MAX] + l2)[n + 1 + |l1| := y] == labels + ([x] + l1 + [y] + l2)
  {
  }

  lemma WhileDone(s: Stmt, code: seq<int>, labels: seq<nat>, brk: nat, cont: nat)
    requires s.While?
    ensures var n := |labels|;
            var head := code + OpsCode(s.cond) + Jump(JUMP_ZERO, n + 1);
            var done := head + Code(s.body, n + 2, n + 1, n) + Jump(JUMP, n);
            done == code + Code(s, n, brk, cont)
            && (labels + [|code|] + [SIZE_MAX] + Labels(s.body, |head|, n + 2, n + 1, n))[n + 1 := |done|]
               == labels + Labels(s, |code|, n, brk, cont)
  {
    hide OpsCode, Jump;
  }

  lemma ForDone(s: Stmt, code: seq<int>, labels: seq<nat>, brk: nat, cont: nat)
    requires s.For?
    ensures var n := |labels|;
            var top := code + OpsCode(s.init);
            var update := top + OpsCode(s.cond) + Jump(JUMP_ZERO, n + 3) + Jump(JUMP, n + 2);
            var body := update + OpsCode(s.update) + Jump(JUMP, n);
            var done := body + Code(s.body, n + 4, n + 3, n + 1) + Jump(JUMP, n + 1);
            done == code + Code(s, n, brk, cont)
            && (labels + [|top|] + [|update|] + [|body|] + [SIZE_MAX] + Labels(s.body, |body|, n + 4, n + 3, n + 1))
               [n + 3 := |done|]
               == labels + Labels(s, |code|, n, brk, cont)
  {
    hide OpsCode, Jump, Code, Labels;
    var n := |labels|;
    var i, c, jz, j1, u := OpsCode(s.init), OpsCode(s.cond), Jump(JUMP_ZERO, n + 3), Jump(JUMP, n + 2), OpsCode(s.update);
    var j0, t, back := Jump(JUMP, n), Code(s.body, n + 4, n + 3, n + 1), Jump(JUMP, n + 1);
    ForUnfolded(s, |code|, n, brk, cont);
    ForPieces(code, i, c, jz, j1, u, j0, t, back);
    var body := |code| + |i| + |c + jz + j1| + |u + j0|;
    FourLabels(labels, Labels(s.body, body, n + 4, n + 3, n + 1), |code| + |i|, |code| + |i| + |c + jz + j1|, body,
               |code| + |i + (c + jz + j1) + (u + j0) + t + back|);
  }

  lemma ForUnfolded(s: Stmt, o: nat, n: nat, brk: nat, cont: nat)
    requires s.For?
    ensures var head, update := OpsCode(s.cond) + Jump(JUMP_ZERO, n + 3) + Jump(JUMP, n + 2), OpsCode(s.update) + Jump(JUMP, n);
            var all := OpsCode(s.init) + head + update + Code(s.body, n + 4, n + 3, n + 1) + Jump(JUMP, n + 1);
            var body := o + |OpsCode(s.init)| + |head| + |update|;
            Code(s, n, brk, cont) == all
            && Labels(s, o, n, brk, cont)
               == [o + |OpsCode(s.init)|, o + |OpsCode(s.init)| + |head|, body, o + |all|] + Labels(s.body, body, n + 4, n + 3, n + 1)
  {
    hide OpsCode, Jump;
  }

  lemma ForPieces(code: seq<int>, i: seq<int>, c: seq<int>, jz: seq<int>, j1: seq<int>, u: seq<int>, j0: seq<int>, t: seq<int>,
                  back: seq<int>)
    ensures code + i + c + jz + j1 + u + j0 + t + back == code + (i + (c + jz + j1) + (u + j0) + t + back)
    ensures |code + i| == |code| + |i| && |code + i + c + jz + j1| == |code| + |i| + |c + jz + j1|
    ensures |code + i + c + jz + j1 + u + j0| == |code| + |i| + |c + jz + j1| + |u + j0|
  {
  }

  lemma FourLabels(labels: seq<nat>, rest: seq<nat>, x: nat, y: nat, z: nat, w: nat)
    ensures (labels + [x] + [y] + [z] + [SIZE_MAX] + rest)[|labels| + 3 := w] == labels + ([x, y, z, w] + rest)
  {
  }

  lemma InsUnfolds(ops: seq<Ins>, i: nat)
    requires i < |ops|
    ensures OpsCode(ops[i..]) == InsCode(ops[i]) + OpsCode(ops[i + 1..])
  {
    assert ops[i..][1..] == ops[i + 1..];
  }

  lemma InsWhole(code: seq<int>, ins: Ins, rest: seq<int>)
    ensures code + [ins.op] + Operands(ins.args) == code + InsCode(ins) && Operands(ins.args[|ins.args|..]) == []
    ensures code + InsCode(ins) + rest == code + (InsCode(ins) + rest)
  {
  }

  lemma OneOperand(args: seq<nat>, j: nat, code: seq<int>)
    requires j < |args|
    ensures code + Operands(args[j..]) == (code + Operand(args[j])) + Operands(args[j + 1..])
  {
    assert args[j..][1..] == args[j + 1..];
  }

  /** Operands are machine words. */
  predicate Small(s: Stmt) {
    match s
    case Do(ops) => Words(ops)
    case Seq(a, b) => Small(a) && Small(b)
    case If(c, t) => Words(c) && Small(t)
    case IfElse(c, t, e) => Words(c) && Small(t) && Small(e)
    case While(c, t) => Words(c) && Small(t)
    case For(i, c, u, t) => Words(i) && Words(c) && Words(u) && Small(t)
    case _ => true
  }

  predicate Words(ops: seq<Ins>) {
    forall i :: 0 <= i < |ops| ==> forall j :: 0 <= j < |ops[i].args| ==> ops[i].args[j] <= SIZE_MAX
  }
}
