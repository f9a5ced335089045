/** bc's expression parser on its shared operator stack and code vector. */
module BcExprParser {
  import opened BcExpr
  import opened BcSound
  import opened BcComplete
  import opened BcGrammar

  /** One more operator emitted by bc_parse_operator's loop. */
  lemma PopForOnce(own: seq<Entry>, op: Op)
    requires own != [] && Pops(own[|own| - 1], op)
    ensures PopFor(own, op) == (PopFor(own[..|own| - 1], op).0, [Do(own[|own| - 1].op)] + PopFor(own[..|own| - 1], op).1)
  {
  }

  lemma PopToParenOnce(ops: seq<Entry>)
    requires ops != [] && ops[|ops| - 1].Opr?
    ensures PopToParen(ops) == (PopToParen(ops[..|ops| - 1]).0, [Do(ops[|ops| - 1].op)] + PopToParen(ops[..|ops| - 1]).1)
  {
  }

  lemma Moved(code: seq<Inst>, i: Inst, out: seq<Inst>)
    ensures code + ([i] + out) == code + [i] + out
    ensures Uses([i] + out) == (if i.Do? then Less(i.op) else 0) + Uses(out)
  {
    assert ([i] + out)[1..] == out;
  }

  lemma AboveStart(ops: seq<Entry>, start: nat)
    requires start < |ops|
    ensures ops[start..] != [] && ops[start..][|ops| - start - 1] == ops[|ops| - 1]
    ensures ops[..|ops| - 1][start..] == ops[start..][..|ops| - start - 1]
    ensures ops[..|ops| - 1][..start] == ops[..start]
  {
  }

  /** The part of the stack that belongs to an expression stays above what was there. */
  lemma PopToParenAbove(below: seq<Entry>, own: seq<Entry>)
    requires Parens(own) > 0
    ensures PopToParen(below + own) == (below + PopToParen(own).0, PopToParen(own).1)
    decreases |own|
  {
    var n := |own|;
    assert (below + own)[..|below + own| - 1] == below + own[..n - 1];
    if own[n - 1].Opr? { PopToParenAbove(below, own[..n - 1]); }
  }

  lemma NoParens(ops: seq<Entry>)
    ensures Parens(ops) > 0 <==> Paren in ops
  {
    if ops != [] {
      NoParens(ops[..|ops| - 1]);
      assert ops == ops[..|ops| - 1] + [ops[|ops| - 1]];
    }
  }

  /** The local variables of bc_parse_expr_err. */
  datatype Locals = Locals(nexprs: int, parens: nat, prev: Prev, binLast: bool, rprn: bool, last: Tok)

  predicate Leaf(v: Locals) {
    !v.binLast && (v.rprn || v.prev == PNum)
  }

  /** The parser's state as one value: what lies above `start`, the code since `base`, and the locals. */
  function View(ops: seq<Entry>, start: nat, code: seq<Inst>, base: nat, v: Locals): St
    requires start <= |ops| && base <= |code|
  {
    St(ops[start..], code[base..], v.nexprs, v.parens, v.prev, v.binLast, v.rprn, v.last)
  }

  /** What stays of stack and code below the expression. */
  predicate Above(ops: seq<Entry>, start: nat, code: seq<Inst>, base: nat, ops0: seq<Entry>, code0: seq<Inst>) {
    start <= |ops| && start <= |ops0| && base <= |code| && base <= |code0|
    && ops[..start] == ops0[..start] && code[..base] == code0[..base]
  }

  lemma Appended(code: seq<Inst>, base: nat, out: seq<Inst>)
    requires base <= |code|
    ensures (code + out)[base..] == code[base..] + out && (code + out)[..base] == code[..base]
  {
  }

  lemma Stacked(ops: seq<Entry>, start: nat, own: seq<Entry>, e: Entry)
    requires start <= |ops|
    ensures (ops[..start] + own + [e])[start..] == own + [e] && (ops[..start] + own + [e])[..start] == ops[..start]
    ensures |ops[..start] + own + [e]| >= start
  {
  }

  lemma Pushed(ops: seq<Entry>, start: nat, e: Entry)
    requires start <= |ops|
    ensures (ops + [e])[start..] == ops[start..] + [e] && (ops + [e])[..start] == ops[..start]
  {
  }

  /** A parenthesis closed above `start` leaves what is below alone. */
  lemma Shrunk(ops: seq<Entry>, start: nat)
    requires start <= |ops| && Parens(ops[start..]) > 0
    ensures Paren in ops && |PopToParen(ops).0| >= start
    ensures PopToParen(ops).0[start..] == PopToParen(ops[start..]).0 && PopToParen(ops).0[..start] == ops[..start]
    ensures PopToParen(ops).1 == PopToParen(ops[start..]).1
  {
    hide PopToParen;
    NoParens(ops[start..]);
    PopToParenAbove(ops[..start], ops[start..]);
    assert ops == ops[..start] + ops[start..];
  }

  predicate Counted(st: St) {
    st.parens == Parens(st.ops)
  }

  lemma PushedParens(ops: seq<Entry>, e: Entry)
    ensures Parens(ops + [e]) == Parens(ops) + if e.Paren? then 1 else 0
  {
    assert (ops + [e])[..|ops|] == ops;
  }

  lemma {:induction false} PoppedParens(ops: seq<Entry>)
    requires Parens(ops) > 0
    ensures Parens(PopToParen(ops).0) == Parens(ops) - 1
    decreases |ops|
  {
    if ops[|ops| - 1].Opr? { PoppedParens(ops[..|ops| - 1]); }
  }

  lemma OperateParens(st: St, op: Op)
    ensures Parens(Operate(st, op).ops) == Parens(st.ops)
  {
    PopForParens(st.ops, op);
    PushedParens(PopFor(st.ops, op).0, Opr(op));
  }

  /** The count of open parentheses is the number on the stack. */
  lemma StillCounted(st: St, t: Tok)
    requires Counted(st) && Token(st, t).Ok?
    ensures Counted(Token(st, t).st)
  {
    hide Parens, Operate, PopToParen;
    match t
    case Oper(op) =>
      OperateParens(st, op);
      PushedParens(st.ops, Opr(Neg));
      OperateFlags(st, op);
    case LParen => PushedParens(st.ops, Paren);
    case RParen => PoppedParens(st.ops);
    case _ =>
  }

  lemma OperateFlags(st: St, op: Op)
    ensures Operate(st, op).parens == st.parens
  {
  }

  class Parser {
    var ops: seq<Entry>
    var code: seq<Inst>

    constructor ()
      ensures ops == [] && code == []
    {
      ops, code := [], [];
    }

    /** bc_parse_operator. */
    method Operator(op: Op, start: nat, nexprs: int) returns (n: int)
      requires start <= |ops|
      modifies this
      ensures ops == old(ops)[..start] + PopFor(old(ops)[start..], op).0 + [Opr(op)]
      ensures code == old(code) + PopFor(old(ops)[start..], op).1
      ensures n == nexprs - Uses(PopFor(old(ops)[start..], op).1)
    {
      hide PopFor, Uses;
      n := nexprs;
      while |ops| > start && Pops(ops[|ops| - 1], op)
        invariant start <= |ops| && ops[..start] == old(ops)[..start]
        invariant PopFor(ops[start..], op).0 == PopFor(old(ops)[start..], op).0
        invariant code + PopFor(ops[start..], op).1 == old(code) + PopFor(old(ops)[start..], op).1
        invariant n - Uses(PopFor(ops[start..], op).1) == nexprs - Uses(PopFor(old(ops)[start..], op).1)
        decreases |ops|
      {
        var t := ops[|ops| - 1].op;
        AboveStart(ops, start);
        PopForOnce(ops[start..], op);
        Moved(code, Do(t), PopFor(ops[..|ops| - 1][start..], op).1);
        code := code + [Do(t)];
        ops := ops[..|ops| - 1];
        n := n - Less(t);
      }
      PopForDone(ops[start..], op);
      assert ops == ops[..start] + ops[start..];
      ops := ops + [Opr(op)];
    }

    /** bc_parse_rightParen. */
    method RightParen(nexprs: int) returns (n: int)
      requires Paren in ops
      modifies this
      ensures ops == PopToParen(old(ops)).0 && code == old(code) + PopToParen(old(ops)).1
      ensures n == nexprs - Uses(PopToParen(old(ops)).1)
    {
      hide PopToParen, Uses;
      n := nexprs;
      while ops[|ops| - 1] != Paren
        invariant Paren in ops
        invariant PopToParen(ops).0 == PopToParen(old(ops)).0
        invariant code + PopToParen(ops).1 == old(code) + PopToParen(old(ops)).1
        invariant n - Uses(PopToParen(ops).1) == nexprs - Uses(PopToParen(old(ops)).1)
        decreases |ops|
      {
        var top := ops[|ops| - 1].op;
        assert ops == ops[..|ops| - 1] + [ops[|ops| - 1]];
        PopToParenOnce(ops);
        Moved(code, Do(top), PopToParen(ops[..|ops| - 1]).1);
        code := code + [Do(top)];
        ops := ops[..|ops| - 1];
        n := n - Less(top);
      }
      PopToParenDone(ops);
      ops := ops[..|ops| - 1];
    }

    /** bc_parse_minus. */
    method MinusSign(leaf: bool, start: nat, nexprs: int) returns (n: int, prev: Prev)
      requires start <= |ops|
      modifies this
      ensures prev == if leaf then PBin else PNeg
      ensures leaf ==> ops == old(ops)[..start] + PopFor(old(ops)[start..], Minus).0 + [Opr(Minus)]
      ensures leaf ==> code == old(code) + PopFor(old(ops)[start..], Minus).1
      ensures leaf ==> n == nexprs - Uses(PopFor(old(ops)[start..], Minus).1)
      ensures !leaf ==> ops == old(ops) + [Opr(Neg)] && code == old(code) && n == nexprs
    {
      n, prev := nexprs, if leaf then PBin else PNeg;
      if leaf {
        n := Operator(Minus, start, nexprs);
      } else {
        ops := ops + [Opr(Neg)];
      }
    }

    /** The end of bc_parse_expr_err: what is left above `start` is emitted unless a parenthesis is open. */
    method Flush(start: nat, nexprs: int) returns (ok: bool, n: int)
      requires start <= |ops|
      modifies this
      ensures ok <==> Paren !in old(ops)[start..]
      ensures ok ==> ops == old(ops)[..start] && code == old(code) + Reversed(old(ops)[start..])
      ensures ok ==> n == nexprs - Uses(Reversed(old(ops)[start..]))
    {
      hide Uses;
      n := nexprs;
      while |ops| > start
        invariant start <= |ops| && ops[..start] == old(ops)[..start]
        invariant Paren in ops[start..] <==> Paren in old(ops)[start..]
        invariant code + Reversed(ops[start..]) == old(code) + Reversed(old(ops)[start..])
        invariant n - Uses(Reversed(ops[start..])) == nexprs - Uses(Reversed(old(ops)[start..]))
        decreases |ops|
      {
        var top := ops[|ops| - 1];
        AboveStart(ops, start);
        if top.Paren? { return false, n; }
        assert ops[start..] == ops[..|ops| - 1][start..] + [top];
        Moved(code, Do(top.op), Reversed(ops[..|ops| - 1][start..]));
        code := code + [Do(top.op)];
        ops := ops[..|ops| - 1];
        n := n - Less(top.op);
      }
      ok := true;
      NothingLeft();
    }

    /** The case of a binary operator or `!`. */
    method OperatorToken(op: Op, start: nat, ghost base: nat, v: Locals) returns (ok: bool, w: Locals)
      requires start <= |ops| && base <= |code| && op != Minus
      modifies this
      ensures Above(ops, start, code, base, old(ops), old(code))
      ensures ok <==> Token(View(old(ops), start, old(code), base, v), Oper(op)).Ok?
      ensures ok ==> View(ops, start, code, base, w) == Token(View(old(ops), start, old(code), base, v), Oper(op)).st
    {
      hide PopFor, Uses;
      if Prefix(op) {
        if !v.binLast && v.last != Oper(Not) { return false, v; }
      } else if PrevPrefix(v.prev) || v.binLast { return false, v; }
      Appended(code, base, PopFor(ops[start..], op).1);
      Stacked(ops, start, PopFor(ops[start..], op).0, Opr(op));
      var n := Operator(op, start, v.nexprs);
      ok, w := true, Locals(n, v.parens, if Prefix(op) then PNot else PBin, !Prefix(op), false, Oper(op));
    }

    method MinusToken(start: nat, ghost base: nat, v: Locals) returns (w: Locals)
      requires start <= |ops| && base <= |code|
      modifies this
      ensures Above(ops, start, code, base, old(ops), old(code))
      ensures Token(View(old(ops), start, old(code), base, v), Oper(Minus)) == Ok(View(ops, start, code, base, w))
    {
      hide PopFor, Uses;
      Appended(code, base, PopFor(ops[start..], Minus).1);
      Stacked(ops, start, PopFor(ops[start..], Minus).0, Opr(Minus));
      Pushed(ops, start, Opr(Neg));
      var n, prev := MinusSign(Leaf(v), start, v.nexprs);
      w := Locals(n, v.parens, prev, prev == PBin, false, Oper(Minus));
    }

    method LParenToken(start: nat, ghost base: nat, v: Locals) returns (ok: bool, w: Locals)
      requires start <= |ops| && base <= |code|
      modifies this
      ensures Above(ops, start, code, base, old(ops), old(code))
      ensures ok <==> Token(View(old(ops), start, old(code), base, v), LParen).Ok?
      ensures ok ==> View(ops, start, code, base, w) == Token(View(old(ops), start, old(code), base, v), LParen).st
    {
      if Leaf(v) { return false, v; }
      Pushed(ops, start, Paren);
      ops := ops + [Paren];
      ok, w := true, v.(parens := v.parens + 1, rprn := false, last := LParen);
    }

    method OperandToken(x: int, start: nat, ghost base: nat, v: Locals) returns (ok: bool, w: Locals)
      requires start <= |ops| && base <= |code|
      modifies this
      ensures Above(ops, start, code, base, old(ops), old(code))
      ensures ok <==> Token(View(old(ops), start, old(code), base, v), Operand(x)).Ok?
      ensures ok ==> View(ops, start, code, base, w) == Token(View(old(ops), start, old(code), base, v), Operand(x)).st
    {
      if Leaf(v) { return false, v; }
      Appended(code, base, [Push(x)]);
      code := code + [Push(x)];
      ok, w := true, Locals(v.nexprs + 1, v.parens, PNum, false, false, Operand(x));
    }

    method RParenToken(start: nat, ghost base: nat, v: Locals) returns (ok: bool, done: bool, w: Locals)
      requires start <= |ops| && base <= |code| && v.parens == Parens(ops[start..])
      modifies this
      ensures Above(ops, start, code, base, old(ops), old(code))
      ensures !ok <==> Token(View(old(ops), start, old(code), base, v), RParen).Err?
      ensures ok ==> Token(View(old(ops), start, old(code), base, v), RParen)
                     == if done then Stop(View(ops, start, code, base, w)) else Ok(View(ops, start, code, base, w))
    {
      hide PopToParen, Uses;
      if v.last == LParen || v.binLast || PrevPrefix(v.prev) { return false, false, v; }
      if v.parens == 0 { return true, true, v; }
      Shrunk(ops, start);
      Appended(code, base, PopToParen(ops).1);
      var n := RightParen(v.nexprs);
      ok, done, w := true, false, Locals(n, v.parens - 1, v.prev, false, true, RParen);
    }

    /** One round of the loop. */
    method OneToken(t: Tok, start: nat, ghost base: nat, v: Locals) returns (ok: bool, done: bool, w: Locals)
      requires start <= |ops| && base <= |code| && v.parens == Parens(ops[start..])
      modifies this
      ensures Above(ops, start, code, base, old(ops), old(code))
      ensures !ok <==> Token(View(old(ops), start, old(code), base, v), t).Err?
      ensures ok ==> Token(View(old(ops), start, old(code), base, v), t)
                     == if done then Stop(View(ops, start, code, base, w)) else Ok(View(ops, start, code, base, w))
    {
      hide PopToParen, PopFor, Uses;
      ok, done, w := true, false, v;
      match t {
        case Other => done := true;
        case Operand(x) => ok, w := OperandToken(x, start, base, v);
        case LParen => ok, w := LParenToken(start, base, v);
        case RParen => ok, done, w := RParenToken(start, base, v);
        case Oper(op) =>
          if op == Minus { w := MinusToken(start, base, v); } else { ok, w := OperatorToken(op, start, base, v); }
      }
    }

    lemma TokensOnce(st: St, toks: seq<Tok>)
      requires toks != []
      ensures Tokens(st, toks) == if Token(st, toks[0]).Ok? then Tokens(Token(st, toks[0]).st, toks[1..]) else Token(st, toks[0])
    {
    }

    /** The loop of bc_parse_expr_err. */
    method ReadTokens(toks: seq<Tok>, start: nat, ghost base: nat) returns (ok: bool, pos: nat, v: Locals)
      requires start == |ops| && base == |code|
      modifies this
      ensures Above(ops, start, code, base, old(ops), old(code)) && pos <= |toks|
      ensures ok <==> Tokens(INIT, toks).Stop?
      ensures ok ==> Tokens(INIT, toks) == Stop(View(ops, start, code, base, v))
    {
      hide Token, Tokens, Parens;
      v, pos, ok := Locals(0, 0, PNone, true, false, Other), 0, true;
      var done := false;
      Opening(ops, start, code, base, v);
      while !done && pos < |toks|
        invariant ok && pos <= |toks| && Above(ops, start, code, base, old(ops), old(code))
        invariant Counted(View(ops, start, code, base, v))
        invariant Tokens(INIT, toks) == if done then Stop(View(ops, start, code, base, v))
                                        else Tokens(View(ops, start, code, base, v), toks[pos..])
        decreases if done then 0 else 1, |toks| - pos
      {
        ghost var st := View(ops, start, code, base, v);
        TokensOnce(st, toks[pos..]);
        ok, done, v := OneToken(toks[pos], start, base, v);
        if !ok { return; }
        if !done {
          StillCounted(st, toks[pos]);
          assert toks[pos..][1..] == toks[pos + 1..];
          pos := pos + 1;
        } else {
          StoppedSame(st, toks[pos]);
        }
      }
      assert !done ==> toks[pos..] == [];
      AtEnd(View(ops, start, code, base, v));
    }

    lemma StoppedSame(st: St, t: Tok)
      ensures Token(st, t).Stop? ==> Token(st, t).st == st
    {
    }

    lemma AtEnd(st: St)
      ensures Tokens(st, []) == Stop(st)
    {
    }

    lemma Opening(ops: seq<Entry>, start: nat, code: seq<Inst>, base: nat, v: Locals)
      requires start == |ops| && base == |code| && v == Locals(0, 0, PNone, true, false, Other)
      ensures View(ops, start, code, base, v) == INIT && Counted(INIT)
    {
    }

    /** bc_parse_expr_err: an accepted expression adds the postfix of its tree to the code and nothing to the stack. */
    method ParseExpr(toks: seq<Tok>) returns (ok: bool)
      requires Plain(toks)
      modifies this
      ensures ok <==> exists e: Expr, n: nat :: Reads(toks, e, n) && Fits(e, true, false)
      ensures ok ==> ops == old(ops)
      ensures ok ==> forall e: Expr, n: nat :: Reads(toks, e, n) ==> code == old(code) + Post(e)
      ensures forall a, x, b, y, c :: toks == Five(a, x, b, y, c) && Sooner(x, y) ==>
                ok && code == old(code) + [Push(a), Push(b), Do(x), Push(c), Do(y)]
      ensures forall a, x, b, y, c :: toks == Five(a, x, b, y, c) && Later(x, y) ==>
                ok && code == old(code) + [Push(a), Push(b), Push(c), Do(y), Do(x)]
    {
      hide Tokens, Token, Reads, Fits, Post, Reversed, Uses, Sooner, Later;
      FiveTokens(toks);
      ghost var base := |code|;
      var start := |ops|;
      AcceptedIff(toks);
      var pos, v, n;
      ok, pos, v := ReadTokens(toks, start, base);
      if !ok { return; }
      ghost var own, out := ops[start..], code[base..];
      assert old(code) == code[..base];
      assert code == old(code) + out;
      ok, n := Flush(start, v.nexprs);
      ok := ok && n == 1;
      if ok {
        assert code == old(code) + (out + Reversed(own));
        forall e: Expr, n: nat | Reads(toks, e, n) ensures code == old(code) + Post(e) {
          PostIs(toks, e, n);
        }
      }
    }

    /** Three numbers and two operators are a tree the parser takes. */
    lemma FiveTokens(toks: seq<Tok>)
      ensures forall a, x, b, y, c :: toks == Five(a, x, b, y, c) && Sooner(x, y) ==>
                exists e: Expr, n: nat ::
                  Reads(toks, e, n) && Fits(e, true, false) && Post(e) == [Push(a), Push(b), Do(x), Push(c), Do(y)]
      ensures forall a, x, b, y, c :: toks == Five(a, x, b, y, c) && Later(x, y) ==>
                exists e: Expr, n: nat ::
                  Reads(toks, e, n) && Fits(e, true, false) && Post(e) == [Push(a), Push(b), Push(c), Do(y), Do(x)]
    {
      hide Sooner, Later, Reads, Fits, Post;
      forall a, x, b, y, c | toks == Five(a, x, b, y, c) && Sooner(x, y)
        ensures exists e: Expr, n: nat ::
                  Reads(toks, e, n) && Fits(e, true, false) && Post(e) == [Push(a), Push(b), Do(x), Push(c), Do(y)]
      {
        NumbersLeft(a, x, b, y, c);
      }
      forall a, x, b, y, c | toks == Five(a, x, b, y, c) && Later(x, y)
        ensures exists e: Expr, n: nat ::
                  Reads(toks, e, n) && Fits(e, true, false) && Post(e) == [Push(a), Push(b), Push(c), Do(y), Do(x)]
      {
        NumbersRight(a, x, b, y, c);
      }
    }

    lemma PostIs(toks: seq<Tok>, e: Expr, n: nat)
      requires Reads(toks, e, n) && Accepted(toks)
      ensures Finish(Tokens(INIT, toks).st) == Some(Post(e))
    {
      OneMeaning(Meaning((o, x) => x, (o, x, y) => x), toks, e, n, []);
    }

    lemma NothingLeft()
      ensures Reversed([]) == [] && Uses([]) == 0
    {
    }

    lemma PopForDone(own: seq<Entry>, op: Op)
      requires own == [] || !Pops(own[|own| - 1], op)
      ensures PopFor(own, op) == (own, []) && Uses([]) == 0
    {
    }

    lemma PopToParenDone(ops: seq<Entry>)
      requires ops != [] && ops[|ops| - 1] == Paren
      ensures PopToParen(ops) == (ops[..|ops| - 1], []) && Uses([]) == 0
    {
    }
  }
}
