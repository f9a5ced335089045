/** Expressions of bc: the operator table, the trees it fixes, and the shunting-yard as a function on token
    sequences. */
module BcExpr {

  datatype Op = Neg | Not | Power | Multiply | Divide | Modulus | Plus | Minus | Places | LShift | RShift
              | RelEq | RelLe | RelGe | RelNe | RelLt | RelGt | BoolOr | BoolAnd

  /** The precedence table; a smaller number binds tighter. */
  function Prec(op: Op): nat {
    match op
    case Neg => 1
    case Not => 1
    case Places => 3
    case Power => 4
    case Multiply => 5
    case Divide => 5
    case Modulus => 5
    case Plus => 6
    case Minus => 6
    case LShift => 7
    case RShift => 7
    case BoolAnd => 10
    case BoolOr => 11
    case _ => 9
  }

  /** Whether operators of this precedence group to the left. */
  predicate Left(op: Op) {
    op != Neg && op != Not && op != Power && op != Places
  }

  predicate Prefix(op: Op) {
    op == Neg || op == Not
  }

  lemma SamePrecSameSide(a: Op, b: Op)
    requires Prec(a) == Prec(b)
    ensures Left(a) == Left(b)
  {
  }

  datatype Tok = Operand(v: int) | Oper(op: Op) | LParen | RParen | Other

  datatype Expr = Num(v: int) | Pre(op: Op, e: Expr) | Bin(op: Op, l: Expr, r: Expr) | Group(e: Expr)

  /** The token a prefix operator is written as: a minus sign serves twice. */
  function PrefixTok(op: Op): Tok {
    Oper(if op == Neg then Minus else op)
  }

  function Show(e: Expr): (s: seq<Tok>)
    ensures |s| > 0
  {
    match e
    case Num(v) => [Operand(v)]
    case Pre(op, x) => [PrefixTok(op)] + Show(x)
    case Bin(op, l, r) => Show(l) + [Oper(op)] + Show(r)
    case Group(x) => [LParen] + Show(x) + [RParen]
  }

  /** What may stand to the left, and to the right, of a binary operator without parentheses. */
  predicate LeftOk(op: Op, e: Expr) {
    e.Bin? ==> Prec(e.op) < Prec(op) || (Prec(e.op) == Prec(op) && Left(op))
  }

  predicate RightOk(op: Op, e: Expr) {
    e.Bin? ==> Prec(e.op) < Prec(op) || (Prec(e.op) == Prec(op) && !Left(op))
  }

  /** The trees that precedence and associativity allow. */
  predicate WellPrec(e: Expr) {
    match e
    case Num(_) => true
    case Pre(op, x) => Prefix(op) && !x.Bin? && WellPrec(x)
    case Bin(op, l, r) => !Prefix(op) && LeftOk(op, l) && RightOk(op, r) && WellPrec(l) && WellPrec(r)
    case Group(x) => WellPrec(x)
  }

  // ------------------------------------------------------------ postfix code

  datatype Inst = Push(v: int) | Do(op: Op)

  function Post(e: Expr): seq<Inst> {
    match e
    case Num(v) => [Push(v)]
    case Pre(op, x) => Post(x) + [Do(op)]
    case Bin(op, l, r) => Post(l) + Post(r) + [Do(op)]
    case Group(x) => Post(x)
  }

  /** What operators compute, whatever it is. */
  datatype Meaning = Meaning(one: (Op, int) -> int, two: (Op, int, int) -> int)

  function Value(m: Meaning, e: Expr): int {
    match e
    case Num(v) => v
    case Pre(op, x) => m.one(op, Value(m, x))
    case Bin(op, l, r) => m.two(op, Value(m, l), Value(m, r))
    case Group(x) => Value(m, x)
  }

  datatype Option<T> = Some(value: T) | None

  /** One instruction on the result stack, or none if operands are missing. */
  function Effect(m: Meaning, i: Inst, stack: seq<int>): Option<seq<int>> {
    var n := |stack|;
    match i
    case Push(v) => Some(stack + [v])
    case Do(op) =>
      if Prefix(op) then if n < 1 then None else Some(stack[..n - 1] + [m.one(op, stack[n - 1])])
      else if n < 2 then None
      else Some(stack[..n - 2] + [m.two(op, stack[n - 2], stack[n - 1])])
  }

  /** The result stack after the code, or none if it runs out of operands. */
  function Eval(m: Meaning, code: seq<Inst>, stack: seq<int>): Option<seq<int>>
    decreases |code|
  {
    if code == [] then Some(stack)
    else
      var s := Effect(m, code[0], stack);
      if s.Some? then Eval(m, code[1..], s.value) else None
  }

  lemma EvalFirst(m: Meaning, i: Inst, rest: seq<Inst>, stack: seq<int>)
    requires Effect(m, i, stack).Some?
    ensures Eval(m, [i] + rest, stack) == Eval(m, rest, Effect(m, i, stack).value)
  {
    assert ([i] + rest)[1..] == rest;
  }

  /** Postfix code never runs out of operands and adds the tree's value to the stack. */
  lemma {:induction false} PostEvaluates(m: Meaning, e: Expr, rest: seq<Inst>, stack: seq<int>)
    requires WellPrec(e)
    ensures Eval(m, Post(e) + rest, stack) == Eval(m, rest, stack + [Value(m, e)])
    decreases e
  {
    hide Eval;
    match e
    case Num(v) => EvalFirst(m, Push(v), rest, stack);
    case Pre(op, x) =>
      assert Post(e) + rest == Post(x) + ([Do(op)] + rest);
      PostEvaluates(m, x, [Do(op)] + rest, stack);
      EvalFirst(m, Do(op), rest, stack + [Value(m, x)]);
      assert (stack + [Value(m, x)])[..|stack|] == stack;
    case Bin(op, l, r) =>
      assert Post(e) + rest == Post(l) + (Post(r) + ([Do(op)] + rest));
      PostEvaluates(m, l, Post(r) + ([Do(op)] + rest), stack);
      PostEvaluates(m, r, [Do(op)] + rest, stack + [Value(m, l)]);
      EvalFirst(m, Do(op), rest, stack + [Value(m, l)] + [Value(m, r)]);
      assert (stack + [Value(m, l)] + [Value(m, r)])[..|stack|] == stack;
    case Group(x) => PostEvaluates(m, x, rest, stack);
  }

  // ------------------------------------------------------------ the operator stack

  datatype Entry = Opr(op: Op) | Paren

  function Less(op: Op): int {
    if Prefix(op) then 0 else 1
  }

  /** An operator on top that must be emitted before `op` goes on. */
  predicate Pops(top: Entry, op: Op) {
    top.Opr? && !(Prec(top.op) >= Prec(op) && (Prec(top.op) != Prec(op) || !Left(op)))
  }

  /** What bc_parse_operator leaves on the stack and what it emits. */
  function PopFor(ops: seq<Entry>, op: Op): (seq<Entry>, seq<Inst>) {
    if ops == [] || !Pops(ops[|ops| - 1], op) then (ops, [])
    else
      var (rest, out) := PopFor(ops[..|ops| - 1], op);
      (rest, [Do(ops[|ops| - 1].op)] + out)
  }

  /** What bc_parse_rightParen leaves and emits; the parenthesis itself goes too. */
  function PopToParen(ops: seq<Entry>): (seq<Entry>, seq<Inst>) {
    if ops == [] then ([], [])
    else if ops[|ops| - 1].Paren? then (ops[..|ops| - 1], [])
    else
      var (rest, out) := PopToParen(ops[..|ops| - 1]);
      (rest, [Do(ops[|ops| - 1].op)] + out)
  }

  /** Operators of a tree still on the stack after its last token, and the code already out. */
  function Spine(e: Expr): seq<Entry> {
    match e
    case Num(_) => []
    case Pre(op, x) => [Opr(op)] + Spine(x)
    case Bin(op, _, r) => [Opr(op)] + Spine(r)
    case Group(_) => []
  }

  function Emitted(e: Expr): seq<Inst> {
    match e
    case Num(v) => [Push(v)]
    case Pre(_, x) => Emitted(x)
    case Bin(_, l, r) => Post(l) + Emitted(r)
    case Group(x) => Post(x)
  }

  function Reversed(ops: seq<Entry>): seq<Inst> {
    if ops == [] then []
    else if ops[|ops| - 1].Paren? then Reversed(ops[..|ops| - 1])
    else [Do(ops[|ops| - 1].op)] + Reversed(ops[..|ops| - 1])
  }

  /** All operators of a spine may be popped for op. */
  predicate SpineBelow(e: Expr, op: Op) {
    forall i :: 0 <= i < |Spine(e)| ==> Pops(Spine(e)[i], op)
  }

  lemma {:induction false} SpinePops(e: Expr, op: Op)
    requires WellPrec(e) && LeftOk(op, e) && !Prefix(op)
    ensures SpineBelow(e, op)
  {
    match e
    case Pre(p, x) =>
      SpinePops(x, op);
    case Bin(p, l, r) =>
      if r.Bin? && Prec(p) == Prec(op) { SamePrecSameSide(p, op); }
      SpinePops(r, op);
    case _ =>
  }

  lemma {:induction false} SpineOps(e: Expr)
    ensures forall i :: 0 <= i < |Spine(e)| ==> Spine(e)[i].Opr?
    ensures Post(e) == Emitted(e) + Reversed(Spine(e))
  {
    match e
    case Num(v) =>
    case Pre(op, x) =>
      SpineOps(x);
      ReversedCons(Opr(op), Spine(x));
      assert Emitted(x) + Reversed(Spine(x)) + [Do(op)] == Emitted(x) + (Reversed(Spine(x)) + [Do(op)]);
    case Bin(op, l, r) =>
      SpineOps(r);
      ReversedCons(Opr(op), Spine(r));
      assert Post(l) + (Emitted(r) + Reversed(Spine(r))) + [Do(op)] == (Post(l) + Emitted(r)) + (Reversed(Spine(r)) + [Do(op)]);
    case Group(x) =>
  }

  lemma {:induction false} ReversedCons(x: Entry, ops: seq<Entry>)
    requires x.Opr?
    ensures Reversed([x] + ops) == Reversed(ops) + [Do(x.op)]
    decreases |ops|
  {
    if ops == [] {
      assert ([x] + ops)[..0] == [];
      assert [x] + ops == [x];
    } else {
      ReversedCons(x, ops[..|ops| - 1]);
      assert ([x] + ops)[..|ops|] == [x] + ops[..|ops| - 1];
    }
  }

  // ------------------------------------------------------------------ the parser

  /** The last instruction as far as the parser looks at it. */
  datatype Prev = PNone | PNum | PNeg | PNot | PBin

  /** The parser between two tokens; `ops` is its own part of the operator stack. */
  datatype St = St(ops: seq<Entry>, code: seq<Inst>, nexprs: int, parens: nat, prev: Prev, binLast: bool, rprn: bool, last: Tok)

  datatype Res = Ok(st: St) | Stop(st: St) | Err

  const INIT: St := St([], [], 0, 0, PNone, true, false, Other)

  predicate IsLeaf(st: St) {
    !st.binLast && (st.rprn || st.prev == PNum)
  }

  predicate PrevPrefix(prev: Prev) {
    prev == PNeg || prev == PNot
  }

  /** How many values fewer the emitted operators leave. */
  function Uses(out: seq<Inst>): int {
    if out == [] then 0 else (if out[0].Do? then Less(out[0].op) else 0) + Uses(out[1..])
  }

  /** bc_parse_operator. */
  function Operate(st: St, op: Op): St {
    var (rest, out) := PopFor(st.ops, op);
    st.(ops := rest + [Opr(op)], code := st.code + out, nexprs := st.nexprs - Uses(out))
  }

  /** One round of bc_parse_expr_err's loop. */
  function Token(st: St, t: Tok): Res {
    match t
    case Other => Stop(st)
    case Operand(v) =>
      if IsLeaf(st) then Err
      else Ok(st.(code := st.code + [Push(v)], nexprs := st.nexprs + 1, prev := PNum, rprn := false, binLast := false, last := t))
    case LParen =>
      if IsLeaf(st) then Err
      else Ok(st.(ops := st.ops + [Paren], parens := st.parens + 1, rprn := false, last := t))
    case RParen =>
      if st.last == LParen || st.binLast || PrevPrefix(st.prev) then Err
      else if st.parens == 0 then Stop(st)
      else
        var (rest, out) := PopToParen(st.ops);
        Ok(st.(ops := rest, code := st.code + out, nexprs := st.nexprs - Uses(out), parens := st.parens - 1,
               rprn := true, binLast := false, last := t))
    case Oper(op) =>
      if op == Minus then
        var o := if IsLeaf(st) then Operate(st, Minus) else st.(ops := st.ops + [Opr(Neg)]);
        Ok(o.(prev := if IsLeaf(st) then PBin else PNeg, rprn := false, binLast := IsLeaf(st), last := t))
      else if Prefix(op) && !st.binLast && st.last != Oper(Not) then Err
      else if !Prefix(op) && (PrevPrefix(st.prev) || st.binLast) then Err
      else Ok(Operate(st, op).(prev := if Prefix(op) then PNot else PBin, rprn := false, binLast := !Prefix(op), last := t))
  }

  /** The loop: how far it gets. */
  function Tokens(st: St, toks: seq<Tok>): Res
    decreases |toks|
  {
    if toks == [] then Stop(st)
    else
      var r := Token(st, toks[0]);
      if r.Ok? then Tokens(r.st, toks[1..]) else r
  }

  /** The end of bc_parse_expr_err: everything still on the stack is emitted, and exactly one value must be left. */
  function Finish(st: St): Option<seq<Inst>> {
    if Paren in st.ops || st.nexprs - Uses(Reversed(st.ops)) != 1 then None else Some(st.code + Reversed(st.ops))
  }

  /** The tokens a token becomes when written out: a minus sign in prefix position stays a minus sign. */
  predicate Plain(toks: seq<Tok>) {
    forall i :: 0 <= i < |toks| ==> toks[i] != Oper(Neg)
  }
}
