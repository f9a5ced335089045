/** Byte code of bc's control flow: index operands (bc_vec_pushIndex, bc_program_index), the code and the
    labels that each statement tree is compiled to. */
module BcCode {
  import opened Positional

  // the numbers depend on what is compiled in; they only need to differ
  const JUMP: int := 67
  const JUMP_ZERO: int := 68
  const SIZE_MAX: nat := 0xffff_ffff_ffff_ffff

  // ---------------------------------------------------------- index operands

  /** The bytes of an index, low byte first, none for zero. */
  function Bytes(idx: nat): (s: seq<int>)
    ensures Digits(s, 256)
  {
    if idx == 0 then [] else [idx % 256] + Bytes(idx / 256)
  }

  /** An index operand: how many bytes, then the bytes. */
  function Operand(idx: nat): (s: seq<int>)
    ensures |s| > 0
  {
    [|Bytes(idx)|] + Bytes(idx)
  }

  lemma {:induction false} BytesValue(idx: nat)
    ensures Val(Bytes(idx), 256) == idx
  {
    if idx > 0 {
      BytesValue(idx / 256);
      assert ([idx % 256] + Bytes(idx / 256))[1..] == Bytes(idx / 256);
    }
  }

  lemma {:induction false} BytesLength(idx: nat, n: nat)
    requires idx < Pow(256, n)
    ensures |Bytes(idx)| <= n
  {
    if idx > 0 {
      MulGrows(256, Pow(256, n - 1));
      BytesLength(idx / 256, n - 1);
    }
  }

  /** bc_vec_pushIndex. An index is a machine word, so its length fits in the length byte. */
  method PushIndex(v: seq<int>, idx: nat) returns (r: seq<int>)
    requires idx <= SIZE_MAX
    ensures r == v + Operand(idx) && |Bytes(idx)| <= 8
  {
    var nums: seq<int> := [];
    var rest := idx;
    while rest > 0
      invariant 0 <= rest && Bytes(idx) == nums + Bytes(rest)
      decreases rest
    {
      nums := nums + [rest % 256];
      rest := rest / 256;
    }
    WordPower();
    BytesLength(idx, 8);
    assert nums == Bytes(idx);
    r := v + [|nums|] + nums;
  }

  lemma WordPower()
    ensures Pow(256, 8) == SIZE_MAX + 1
  {
    assert Pow(256, 4) == 0x1_0000_0000;
    PowAdd(256, 4, 4);
  }

  /** bc_program_index: the value and where the next instruction starts. */
  function ReadIndex(code: seq<int>, pc: nat): (nat, nat) {
    if pc >= |code| || code[pc] < 0 || pc + 1 + code[pc] > |code| then (0, pc + 1)
    else
      var v := Val(code[pc + 1..pc + 1 + code[pc]], 256);
      (if v >= 0 then v else 0, pc + 1 + code[pc])
  }

  /** Reading an index is the same as looping over its bytes, each shifted into place. */
  method ReadLoop(code: seq<int>, bgn: nat) returns (res: nat, next: nat)
    requires bgn < |code| && 0 <= code[bgn] && bgn + 1 + code[bgn] <= |code| && Digits(code[bgn + 1..bgn + 1 + code[bgn]], 256)
    ensures (res, next) == ReadIndex(code, bgn)
  {
    hide Val, Pow;
    var amt, i := code[bgn], 0;
    var part := code[bgn + 1..bgn + 1 + amt];
    res, next := 0, bgn + 1;
    assert Digits(part, 256);
    NoBytes();
    while i < amt
      invariant 0 <= i <= amt && next == bgn + 1 + i && res == Val(part[..i], 256)
    {
      ValPrefix(part, i, 256);
      ByteInPlace(part[i], i);
      res := res + part[i] * Pow(256, i);
      i := i + 1;
      next := next + 1;
    }
    assert part[..amt] == part;
  }

  lemma NoBytes()
    ensures Val([], 256) == 0
    ensures forall s: seq<int> :: Val(s[..0], 256) == 0
  {
    forall s: seq<int> ensures Val(s[..0], 256) == 0 { assert s[..0] == []; }
  }

  lemma ByteInPlace(x: int, i: nat)
    requires 0 <= x
    ensures 0 <= x * Pow(256, i) == Pow(256, i) * x
  {
    MulMonotone(0, x, Pow(256, i));
  }

  /** What was pushed is what is read. */
  lemma IndexRoundTrip(code: seq<int>, pc: nat, idx: nat)
    requires pc + |Operand(idx)| <= |code| && code[pc..pc + |Operand(idx)|] == Operand(idx)
    ensures ReadIndex(code, pc) == (idx, pc + |Operand(idx)|)
  {
    var part := code[pc..pc + |Operand(idx)|];
    assert code[pc] == part[0];
    assert code[pc + 1..pc + 1 + code[pc]] == part[1..] == Bytes(idx);
    BytesValue(idx);
  }

  // ------------------------------------------------------------- statements

  /** A straight-line instruction: an opcode and its indices, two for a call. */
  datatype Ins = Ins(op: int, args: seq<nat>)

  /** Bracketed statement trees. Conditions and expression statements are straight-line code. */
  datatype Stmt = Skip
                | Do(ops: seq<Ins>)
                | Seq(first: Stmt, second: Stmt)
                | If(cond: seq<Ins>, body: Stmt)
                | IfElse(cond: seq<Ins>, yes: Stmt, no: Stmt)
                | While(cond: seq<Ins>, body: Stmt)
                | For(init: seq<Ins>, cond: seq<Ins>, update: seq<Ins>, body: Stmt)
                | Break
                | Continue

  /** How many indices follow an opcode. */
  type OpTest = int -> nat

  /** Opcodes of straight-line code, each with as many indices as it carries. */
  predicate Plain(takes: OpTest, ops: seq<Ins>) {
    forall i :: 0 <= i < |ops| ==> ops[i].op != JUMP && ops[i].op != JUMP_ZERO && |ops[i].args| == takes(ops[i].op)
  }

  /** Break and continue only inside loops. */
  predicate WellFormed(takes: OpTest, s: Stmt, inLoop: bool) {
    match s
    case Skip => true
    case Do(ops) => Plain(takes, ops)
    case Seq(a, b) => WellFormed(takes, a, inLoop) && WellFormed(takes, b, inLoop)
    case If(c, t) => Plain(takes, c) && WellFormed(takes, t, inLoop)
    case IfElse(c, t, e) => Plain(takes, c) && WellFormed(takes, t, inLoop) && WellFormed(takes, e, inLoop)
    case While(c, t) => Plain(takes, c) && WellFormed(takes, t, true)
    case For(i, c, u, t) => Plain(takes, i) && Plain(takes, c) && Plain(takes, u) && WellFormed(takes, t, true)
    case Break => inLoop
    case Continue => inLoop
  }

  function Operands(args: seq<nat>): seq<int> {
    if args == [] then [] else Operand(args[0]) + Operands(args[1..])
  }

  /** Reading so many indices, and where the next instruction starts. */
  function ReadOperands(code: seq<int>, pc: nat, n: nat): (seq<nat>, nat)
    decreases n
  {
    if n == 0 then ([], pc)
    else
      var (idx, next) := ReadIndex(code, pc);
      var (rest, end) := ReadOperands(code, next, n - 1);
      ([idx] + rest, end)
  }

  /** The indices pushed are the indices read. */
  lemma {:induction false} OperandsRoundTrip(code: seq<int>, pc: nat, args: seq<nat>)
    requires pc + |Operands(args)| <= |code| && code[pc..pc + |Operands(args)|] == Operands(args)
    ensures ReadOperands(code, pc, |args|) == (args, pc + |Operands(args)|)
    decreases |args|
  {
    hide Operand, ReadIndex;
    if args != [] {
      var one, rest, piece := Operand(args[0]), Operands(args[1..]), code[pc..pc + |Operands(args)|];
      assert code[pc..pc + |one|] == piece[..|one|] == one;
      assert code[pc + |one|..pc + |one| + |rest|] == piece[|one|..] == rest;
      IndexRoundTrip(code, pc, args[0]);
      OperandsRoundTrip(code, pc + |one|, args[1..]);
      assert [args[0]] + args[1..] == args && |args[1..]| == |args| - 1;
    }
  }

  function InsCode(i: Ins): (c: seq<int>)
    ensures |c| > 0
  {
    [i.op] + Operands(i.args)
  }

  function OpsCode(ops: seq<Ins>): seq<int> {
    if ops == [] then [] else InsCode(ops[0]) + OpsCode(ops[1..])
  }

  function Jump(op: int, target: nat): (c: seq<int>)
    ensures |c| > 0
  {
    [op] + Operand(target)
  }

  /** How many labels a statement makes. */
  function LabelCount(s: Stmt): nat {
    match s
    case Seq(a, b) => LabelCount(a) + LabelCount(b)
    case If(_, t) => 1 + LabelCount(t)
    case IfElse(_, t, e) => 2 + LabelCount(t) + LabelCount(e)
    case While(_, t) => 2 + LabelCount(t)
    case For(_, _, _, t) => 4 + LabelCount(t)
    case _ => 0
  }

  /** The code of a statement, given how many labels exist already and the labels that break and continue
      go to. */
  function Code(s: Stmt, n: nat, brk: nat, cont: nat): seq<int> {
    match s
    case Skip => []
    case Do(ops) => OpsCode(ops)
    case Seq(a, b) => Code(a, n, brk, cont) + Code(b, n + LabelCount(a), brk, cont)
    case If(c, t) => OpsCode(c) + Jump(JUMP_ZERO, n) + Code(t, n + 1, brk, cont)
    case IfElse(c, t, e) =>
      OpsCode(c) + Jump(JUMP_ZERO, n) + Code(t, n + 1, brk, cont)
      + Jump(JUMP, n + 1 + LabelCount(t)) + Code(e, n + 2 + LabelCount(t), brk, cont)
    case While(c, t) =>
      OpsCode(c) + Jump(JUMP_ZERO, n + 1) + Code(t, n + 2, n + 1, n) + Jump(JUMP, n)
    case For(i, c, u, t) =>
      OpsCode(i) + ForHead(c, n) + ForUpdate(u, n) + Code(t, n + 4, n + 3, n + 1) + Jump(JUMP, n + 1)
    case Break => Jump(JUMP, brk)
    case Continue => Jump(JUMP, cont)
  }

  function ForHead(c: seq<Ins>, n: nat): seq<int> {
    OpsCode(c) + Jump(JUMP_ZERO, n + 3) + Jump(JUMP, n + 2)
  }

  function ForUpdate(u: seq<Ins>, n: nat): seq<int> {
    OpsCode(u) + Jump(JUMP, n)
  }

  /** The values of the labels a statement makes when its code starts at b. */
  function Labels(s: Stmt, b: nat, n: nat, brk: nat, cont: nat): seq<nat> {
    match s
    case Seq(a, c) =>
      Labels(a, b, n, brk, cont) + Labels(c, b + |Code(a, n, brk, cont)|, n + LabelCount(a), brk, cont)
    case If(c, t) =>
      [b + |Code(s, n, brk, cont)|] + Labels(t, b + |OpsCode(c) + Jump(JUMP_ZERO, n)|, n + 1, brk, cont)
    case IfElse(c, t, e) =>
      var yes := b + |OpsCode(c) + Jump(JUMP_ZERO, n)|;
      var no := yes + |Code(t, n + 1, brk, cont) + Jump(JUMP, n + 1 + LabelCount(t))|;
      [no] + Labels(t, yes, n + 1, brk, cont)
      + [b + |Code(s, n, brk, cont)|] + Labels(e, no, n + 2 + LabelCount(t), brk, cont)
    case While(c, t) =>
      [b, b + |Code(s, n, brk, cont)|]
      + Labels(t, b + |OpsCode(c) + Jump(JUMP_ZERO, n + 1)|, n + 2, n + 1, n)
    case For(i, c, u, t) =>
      var top := b + |OpsCode(i)|;
      var update := top + |ForHead(c, n)|;
      var body := update + |ForUpdate(u, n)|;
      [top, update, body, b + |Code(s, n, brk, cont)|] + Labels(t, body, n + 4, n + 3, n + 1)
    case _ => []
  }

  lemma {:induction false} LabelsCounted(s: Stmt, b: nat, n: nat, brk: nat, cont: nat)
    ensures |Labels(s, b, n, brk, cont)| == LabelCount(s)
  {
    hide Code, OpsCode, Jump, ForHead, ForUpdate;
    match s
    case Seq(a, c) =>
      LabelsCounted(a, b, n, brk, cont);
      LabelsCounted(c, b + |Code(a, n, brk, cont)|, n + LabelCount(a), brk, cont);
    case If(c, t) => LabelsCounted(t, b + |OpsCode(c) + Jump(JUMP_ZERO, n)|, n + 1, brk, cont);
    case IfElse(c, t, e) =>
      var yes := b + |OpsCode(c) + Jump(JUMP_ZERO, n)|;
      var no := yes + |Code(t, n + 1, brk, cont) + Jump(JUMP, n + 1 + LabelCount(t))|;
      LabelsCounted(t, yes, n + 1, brk, cont);
      LabelsCounted(e, no, n + 2 + LabelCount(t), brk, cont);
    case While(c, t) => LabelsCounted(t, b + |OpsCode(c) + Jump(JUMP_ZERO, n + 1)|, n + 2, n + 1, n);
    case For(i, c, u, t) =>
      var body := b + |OpsCode(i)| + |ForHead(c, n)| + |ForUpdate(u, n)|;
      LabelsCounted(t, body, n + 4, n + 3, n + 1);
    case _ =>
  }
}
