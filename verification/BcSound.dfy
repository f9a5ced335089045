/** What bc's expression parser accepts is a tree the table allows, and its code is that tree's postfix. */
module BcSound {
  import opened BcExpr

  // ------------------------------------------------ what the stacks stand for

  /** `top` may stay below an arriving binary operator. */
  predicate Stays(ops: seq<Entry>, op: Op) {
    ops == [] || ops[|ops| - 1].Paren? || (!Prefix(ops[|ops| - 1].op) && !Pops(ops[|ops| - 1], op))
  }

  /** Waiting for an operand: each binary operator has its left tree, prefixes and parentheses have none. */
  predicate Open(ops: seq<Entry>, trees: seq<Expr>)
    decreases |ops|
  {
    if ops == [] then trees == []
    else
      var top, below := ops[|ops| - 1], ops[..|ops| - 1];
      if top.Paren? || Prefix(top.op) then Open(below, trees)
      else
        trees != [] && var t := trees[|trees| - 1];
        WellPrec(t) && LeftOk(top.op, t) && Stays(below, top.op) && Open(below, trees[..|trees| - 1])
  }

  /** The tree may be the operand of what is on top. */
  predicate Takes(ops: seq<Entry>, t: Expr) {
    ops == [] || ops[|ops| - 1].Paren?
    || (if Prefix(ops[|ops| - 1].op) then !t.Bin? else RightOk(ops[|ops| - 1].op, t))
  }

  /** A finished operand on top of an open stack. */
  predicate Closed(ops: seq<Entry>, trees: seq<Expr>) {
    trees != [] && var t := trees[|trees| - 1];
    WellPrec(t) && Takes(ops, t) && Open(ops, trees[..|trees| - 1])
  }

  /** The tokens read so far. */
  function Spell(ops: seq<Entry>, trees: seq<Expr>): seq<Tok>
    requires Open(ops, trees)
    decreases |ops|
  {
    if ops == [] then []
    else
      var top, below := ops[|ops| - 1], ops[..|ops| - 1];
      if top.Paren? then Spell(below, trees) + [LParen]
      else if Prefix(top.op) then Spell(below, trees) + [PrefixTok(top.op)]
      else Spell(below, trees[..|trees| - 1]) + Show(trees[|trees| - 1]) + [Oper(top.op)]
  }

  function Spelled(ops: seq<Entry>, trees: seq<Expr>): seq<Tok>
    requires Closed(ops, trees)
  {
    Spell(ops, trees[..|trees| - 1]) + Show(trees[|trees| - 1])
  }

  function PostAll(trees: seq<Expr>): seq<Inst> {
    if trees == [] then [] else PostAll(trees[..|trees| - 1]) + Post(trees[|trees| - 1])
  }

  function Parens(ops: seq<Entry>): nat {
    if ops == [] then 0 else Parens(ops[..|ops| - 1]) + (if ops[|ops| - 1].Paren? then 1 else 0)
  }

  // ------------------------------------------------------------- one emission

  /** The trees after the top operator is emitted. */
  function Combine(op: Op, trees: seq<Expr>): seq<Expr>
    requires |trees| >= (if Prefix(op) then 1 else 2)
  {
    var n := |trees|;
    if Prefix(op) then trees[..n - 1] + [Pre(op, trees[n - 1])] else trees[..n - 2] + [Bin(op, trees[n - 2], trees[n - 1])]
  }

  lemma PostAllLast(trees: seq<Expr>, t: Expr)
    ensures PostAll(trees + [t]) == PostAll(trees) + Post(t)
  {
    assert (trees + [t])[..|trees|] == trees;
  }

  lemma PrefixPost(init: seq<Expr>, op: Op, r: Expr)
    ensures PostAll(init + [Pre(op, r)]) == PostAll(init + [r]) + [Do(op)]
  {
    hide PostAll;
    PostAllLast(init, r);
    PostAllLast(init, Pre(op, r));
    assert PostAll(init) + (Post(r) + [Do(op)]) == PostAll(init) + Post(r) + [Do(op)];
  }

  lemma BinaryPost(init: seq<Expr>, op: Op, l: Expr, r: Expr)
    ensures PostAll(init + [Bin(op, l, r)]) == PostAll(init + [l, r]) + [Do(op)]
  {
    PostAllLast(init, l);
    PostAllLast(init + [l], r);
    PostAllLast(init, Bin(op, l, r));
    hide PostAll;
    assert init + [l] + [r] == init + [l, r];
    PostRegroup(PostAll(init), Post(l), Post(r), [Do(op)]);
  }

  lemma PostRegroup(a: seq<Inst>, l: seq<Inst>, r: seq<Inst>, d: seq<Inst>)
    ensures a + (l + r + d) == a + l + r + d
  {
  }

  lemma CombinedPost(op: Op, trees: seq<Expr>)
    requires |trees| >= (if Prefix(op) then 1 else 2)
    ensures PostAll(Combine(op, trees)) == PostAll(trees) + [Do(op)]
    ensures |Combine(op, trees)| == |trees| - Less(op)
  {
    hide PostAll;
    var n := |trees|;
    if Prefix(op) {
      assert trees == trees[..n - 1] + [trees[n - 1]];
      PrefixPost(trees[..n - 1], op, trees[n - 1]);
    } else {
      assert trees == trees[..n - 2] + [trees[n - 2], trees[n - 1]];
      BinaryPost(trees[..n - 2], op, trees[n - 2], trees[n - 1]);
    }
  }

  /** What emitting the top operator keeps. */
  predicate Emits(ops: seq<Entry>, trees: seq<Expr>, now: seq<Entry>, built: seq<Expr>) {
    Closed(ops, trees) && Closed(now, built) && Spelled(now, built) == Spelled(ops, trees)
  }

  lemma EmitPrefix(below: seq<Entry>, init: seq<Expr>, op: Op, r: Expr)
    requires Prefix(op) && Closed(below + [Opr(op)], init + [r])
    ensures Emits(below + [Opr(op)], init + [r], below, init + [Pre(op, r)])
  {
    var ops := below + [Opr(op)];
    assert ops[|ops| - 1] == Opr(op) && ops[..|ops| - 1] == below;
    assert (init + [r])[..|init|] == init && (init + [r])[|init|] == r;
    var p := Pre(op, r);
    assert (init + [p])[..|init|] == init && (init + [p])[|init|] == p;
    assert Spell(below, init) + [PrefixTok(op)] + Show(r) == Spell(below, init) + ([PrefixTok(op)] + Show(r));
  }

  lemma OpenBinary(below: seq<Entry>, init: seq<Expr>, op: Op)
    requires !Prefix(op) && Open(below + [Opr(op)], init)
    ensures init != []
    ensures var t, rest := init[|init| - 1], init[..|init| - 1];
            WellPrec(t) && LeftOk(op, t) && Stays(below, op) && Open(below, rest)
            && Spell(below + [Opr(op)], init) == Spell(below, rest) + Show(t) + [Oper(op)]
  {
    var ops := below + [Opr(op)];
    assert ops[|ops| - 1] == Opr(op) && ops[..|ops| - 1] == below;
  }

  lemma EmitBinary(below: seq<Entry>, init: seq<Expr>, op: Op, l: Expr, r: Expr)
    requires !Prefix(op) && Closed(below + [Opr(op)], init + [l, r])
    ensures Emits(below + [Opr(op)], init + [l, r], below, init + [Bin(op, l, r)])
  {
    hide Open, Spell, Stays, WellPrec, Show;
    var ops, trees, b := below + [Opr(op)], init + [l, r], Bin(op, l, r);
    assert ops[|ops| - 1] == Opr(op);
    assert trees[..|trees| - 1] == init + [l] && trees[|trees| - 1] == r;
    OpenBinary(below, init + [l], op);
    assert (init + [l])[|init|] == l && (init + [l])[..|init|] == init;
    assert (init + [b])[|init|] == b && (init + [b])[..|init|] == init;
    StaysTakes(below, op, l, r);
    BinIs(op, l, r);
    assert Spell(below, init) + Show(l) + [Oper(op)] + Show(r) == Spell(below, init) + (Show(l) + [Oper(op)] + Show(r));
  }

  lemma BinIs(op: Op, l: Expr, r: Expr)
    ensures Show(Bin(op, l, r)) == Show(l) + [Oper(op)] + Show(r)
    ensures WellPrec(Bin(op, l, r)) <==> !Prefix(op) && LeftOk(op, l) && RightOk(op, r) && WellPrec(l) && WellPrec(r)
  {
  }

  /** Emitting the top operator builds a tree that the rest of the stack can take, spelling the same tokens. */
  lemma Emit(ops: seq<Entry>, trees: seq<Expr>)
    requires ops != [] && ops[|ops| - 1].Opr? && Closed(ops, trees)
    ensures |trees| >= (if Prefix(ops[|ops| - 1].op) then 1 else 2)
    ensures Emits(ops, trees, ops[..|ops| - 1], Combine(ops[|ops| - 1].op, trees))
  {
    hide Spell, Stays, WellPrec, Show, Takes, Emits;
    var op, below, n := ops[|ops| - 1].op, ops[..|ops| - 1], |trees|;
    assert ops == below + [Opr(op)];
    if Prefix(op) {
      assert trees == trees[..n - 1] + [trees[n - 1]];
      EmitPrefix(below, trees[..n - 1], op, trees[n - 1]);
    } else {
      OpenBinary(below, trees[..n - 1], op);
      assert trees == trees[..n - 2] + [trees[n - 2], trees[n - 1]];
      EmitBinary(below, trees[..n - 2], op, trees[n - 2], trees[n - 1]);
    }
  }

  lemma StaysTakes(below: seq<Entry>, op: Op, l: Expr, r: Expr)
    requires Stays(below, op) && !Prefix(op)
    ensures Takes(below, Bin(op, l, r))
  {
    if below != [] && below[|below| - 1].Opr? && Prec(below[|below| - 1].op) == Prec(op) {
      SamePrecSameSide(below[|below| - 1].op, op);
    }
  }

  // ------------------------------------------------------------- many emissions

  /** The stacks stand for the same tokens, the code has grown by `out`, and so many values are fewer. */
  predicate Keeps(ops: seq<Entry>, trees: seq<Expr>, now: seq<Entry>, built: seq<Expr>, out: seq<Inst>) {
    Emits(ops, trees, now, built) && PostAll(built) == PostAll(trees) + out && |built| == |trees| - Uses(out)
  }

  lemma KeepsNothing(ops: seq<Entry>, trees: seq<Expr>)
    requires Closed(ops, trees)
    ensures Keeps(ops, trees, ops, trees, [])
  {
    assert PostAll(trees) + [] == PostAll(trees);
  }

  lemma KeepsOneMore(ops: seq<Entry>, trees: seq<Expr>, now: seq<Entry>, built: seq<Expr>, out: seq<Inst>)
    requires ops != [] && ops[|ops| - 1].Opr? && Closed(ops, trees)
    requires |trees| >= (if Prefix(ops[|ops| - 1].op) then 1 else 2)
    requires Emits(ops, trees, ops[..|ops| - 1], Combine(ops[|ops| - 1].op, trees))
    requires Keeps(ops[..|ops| - 1], Combine(ops[|ops| - 1].op, trees), now, built, out)
    ensures Keeps(ops, trees, now, built, [Do(ops[|ops| - 1].op)] + out)
  {
    hide Closed, Spelled, PostAll;
    var op := ops[|ops| - 1].op;
    CombinedPost(op, trees);
    assert PostAll(trees) + [Do(op)] + out == PostAll(trees) + ([Do(op)] + out);
    assert ([Do(op)] + out)[1..] == out;
  }

  function Last(trees: seq<Expr>): Expr
    requires trees != []
  {
    trees[|trees| - 1]
  }

  /** An arriving binary operator finds its left operand whole. */
  lemma {:induction false} PopForKeeps(ops: seq<Entry>, trees: seq<Expr>, op: Op) returns (built: seq<Expr>)
    requires !Prefix(op) && Closed(ops, trees) && LeftOk(op, Last(trees))
    ensures Keeps(ops, trees, PopFor(ops, op).0, built, PopFor(ops, op).1)
    ensures built != [] && LeftOk(op, Last(built)) && Stays(PopFor(ops, op).0, op)
    decreases |ops|
  {
    hide Spelled, Open, WellPrec, Takes, Keeps;
    if ops == [] || !Pops(ops[|ops| - 1], op) {
      built := trees;
      KeepsNothing(ops, trees);
    } else {
      var o := ops[|ops| - 1].op;
      Emit(ops, trees);
      var c := Combine(o, trees);
      built := PopForKeeps(ops[..|ops| - 1], c, op);
      KeepsOneMore(ops, trees, PopFor(ops[..|ops| - 1], op).0, built, PopFor(ops[..|ops| - 1], op).1);
    }
  }

  /** A closing parenthesis finds everything since its partner in one tree. */
  lemma {:induction false} PopToParenKeeps(ops: seq<Entry>, trees: seq<Expr>) returns (built: seq<Expr>)
    requires Closed(ops, trees) && Parens(ops) > 0
    ensures Keeps(ops, trees, PopToParen(ops).0 + [Paren], built, PopToParen(ops).1)
    ensures Parens(PopToParen(ops).0) == Parens(ops) - 1
    decreases |ops|
  {
    hide Spelled, Open, WellPrec, Takes, Keeps;
    var top, below := ops[|ops| - 1], ops[..|ops| - 1];
    if top.Paren? {
      built := trees;
      assert ops == below + [Paren];
      KeepsNothing(ops, trees);
    } else {
      Emit(ops, trees);
      built := PopToParenKeeps(below, Combine(top.op, trees));
      KeepsOneMore(ops, trees, PopToParen(below).0 + [Paren], built, PopToParen(below).1);
    }
  }

  /** With every parenthesis closed, the end of the input leaves one tree. */
  lemma {:induction false} PopAllKeeps(ops: seq<Entry>, trees: seq<Expr>) returns (built: seq<Expr>)
    requires Closed(ops, trees) && Paren !in ops
    ensures Keeps(ops, trees, [], built, Reversed(ops))
    decreases |ops|
  {
    hide Spelled, Open, WellPrec, Takes, Keeps;
    if ops == [] {
      built := trees;
      KeepsNothing(ops, trees);
    } else {
      var top, below := ops[|ops| - 1], ops[..|ops| - 1];
      Emit(ops, trees);
      built := PopAllKeeps(below, Combine(top.op, trees));
      KeepsOneMore(ops, trees, [], built, Reversed(below));
    }
  }

  /** Waiting for an operand, every value is already claimed by a binary operator. */
  lemma {:induction false} OpenUses(ops: seq<Entry>, trees: seq<Expr>)
    requires Open(ops, trees) && Paren !in ops
    ensures Uses(Reversed(ops)) == |trees|
    decreases |ops|
  {
    if ops != [] {
      var top, below := ops[|ops| - 1], ops[..|ops| - 1];
      OpenUses(below, if Prefix(top.op) then trees else trees[..|trees| - 1]);
      assert Reversed(ops)[1..] == Reversed(below);
    }
  }

  // ------------------------------------------------------------------ one token

  /** What the flags say of the last token. */
  predicate Flow(st: St) {
    (st.binLast <==> st.prev == PNone || st.prev == PBin) && (st.rprn ==> st.prev == PNum)
    && (st.last == Oper(Not) ==> st.prev == PNot)
  }

  predicate Inv(st: St, trees: seq<Expr>, read: seq<Tok>) {
    Flow(st) && st.code == PostAll(trees) && st.nexprs == |trees| && st.parens == Parens(st.ops)
    && if IsLeaf(st) then Closed(st.ops, trees) && !Last(trees).Bin? && Spelled(st.ops, trees) == read
       else Open(st.ops, trees) && Spell(st.ops, trees) == read
  }

  lemma OperandStep(st: St, trees: seq<Expr>, read: seq<Tok>, v: int)
    requires Inv(st, trees, read) && !IsLeaf(st)
    ensures Inv(Token(st, Operand(v)).st, trees + [Num(v)], read + [Operand(v)])
  {
    hide Open, Spell, Parens;
    PostAllLast(trees, Num(v));
    assert (trees + [Num(v)])[..|trees|] == trees;
  }

  lemma PushedParen(ops: seq<Entry>, trees: seq<Expr>)
    requires Open(ops, trees)
    ensures Open(ops + [Paren], trees) && Spell(ops + [Paren], trees) == Spell(ops, trees) + [LParen]
    ensures Parens(ops + [Paren]) == Parens(ops) + 1
  {
    assert (ops + [Paren])[..|ops|] == ops;
  }

  lemma LParenStep(st: St, trees: seq<Expr>, read: seq<Tok>)
    requires Inv(st, trees, read) && !IsLeaf(st)
    ensures Inv(Token(st, LParen).st, trees, read + [LParen])
  {
    hide Open, Spell, Parens, PostAll;
    PushedParen(st.ops, trees);
  }

  lemma PushedPrefix(ops: seq<Entry>, trees: seq<Expr>, op: Op)
    requires Open(ops, trees) && Prefix(op)
    ensures Open(ops + [Opr(op)], trees) && Spell(ops + [Opr(op)], trees) == Spell(ops, trees) + [PrefixTok(op)]
    ensures Parens(ops + [Opr(op)]) == Parens(ops)
  {
    assert (ops + [Opr(op)])[..|ops|] == ops;
  }

  lemma NegStep(st: St, trees: seq<Expr>, read: seq<Tok>)
    requires Inv(st, trees, read) && !IsLeaf(st)
    ensures Inv(Token(st, Oper(Minus)).st, trees, read + [Oper(Minus)])
  {
    hide Open, Spell, Parens, PostAll;
    PushedPrefix(st.ops, trees, Neg);
  }

  lemma NotStep(st: St, trees: seq<Expr>, read: seq<Tok>)
    requires Inv(st, trees, read) && Token(st, Oper(Not)).Ok? && !IsLeaf(st)
    ensures Inv(Token(st, Oper(Not)).st, trees, read + [Oper(Not)])
  {
    hide Open, Spell, Parens, PostAll;
    PushedPrefix(st.ops, trees, Not);
    assert PopFor(st.ops, Not) == (st.ops, []);
    assert st.code + [] == st.code;
  }

  lemma PushedBinary(ops: seq<Entry>, trees: seq<Expr>, op: Op)
    requires Closed(ops, trees) && !Prefix(op) && LeftOk(op, Last(trees)) && Stays(ops, op)
    ensures Open(ops + [Opr(op)], trees) && Spell(ops + [Opr(op)], trees) == Spelled(ops, trees) + [Oper(op)]
    ensures Parens(ops + [Opr(op)]) == Parens(ops)
  {
    assert (ops + [Opr(op)])[..|ops|] == ops;
  }

  lemma {:induction false} PopForParens(ops: seq<Entry>, op: Op)
    ensures Parens(PopFor(ops, op).0) == Parens(ops)
    decreases |ops|
  {
    if ops != [] && Pops(ops[|ops| - 1], op) { PopForParens(ops[..|ops| - 1], op); }
  }

  lemma BinaryStep(st: St, trees: seq<Expr>, read: seq<Tok>, op: Op) returns (built: seq<Expr>)
    requires Inv(st, trees, read) && IsLeaf(st) && !Prefix(op)
    ensures Token(st, Oper(op)).Ok? && Inv(Token(st, Oper(op)).st, built, read + [Oper(op)])
  {
    hide Open, Spell, Parens, PostAll, PopFor, Takes, WellPrec, Stays, Uses, Spelled;
    built := PopForKeeps(st.ops, trees, op);
    PopForParens(st.ops, op);
    PushedBinary(PopFor(st.ops, op).0, built, op);
  }

  lemma Grouped(below: seq<Entry>, trees: seq<Expr>)
    requires Closed(below + [Paren], trees)
    ensures var built := trees[..|trees| - 1] + [Group(Last(trees))];
            Closed(below, built) && Spelled(below, built) == Spelled(below + [Paren], trees) + [RParen]
            && PostAll(built) == PostAll(trees)
  {
    var init, t := trees[..|trees| - 1], Last(trees);
    var g := Group(t);
    assert (below + [Paren])[..|below|] == below;
    assert (init + [g])[..|init|] == init;
    assert Spell(below, init) + [LParen] + Show(t) + [RParen] == Spell(below, init) + ([LParen] + Show(t) + [RParen]);
  }

  lemma RParenStep(st: St, trees: seq<Expr>, read: seq<Tok>) returns (built: seq<Expr>)
    requires Inv(st, trees, read) && Token(st, RParen).Ok?
    ensures Inv(Token(st, RParen).st, built, read + [RParen])
  {
    hide Open, Spell, Parens, PostAll, PopToParen, Takes, WellPrec, Stays, Uses, Spelled;
    var b := PopToParenKeeps(st.ops, trees);
    Grouped(PopToParen(st.ops).0, b);
    built := b[..|b| - 1] + [Group(Last(b))];
  }

  /** Every accepted token keeps the invariant. */
  lemma TokenStep(st: St, trees: seq<Expr>, read: seq<Tok>, t: Tok) returns (built: seq<Expr>)
    requires Inv(st, trees, read) && Token(st, t).Ok? && t != Oper(Neg)
    ensures Inv(Token(st, t).st, built, read + [t])
  {
    hide Inv, Operate, PopToParen;
    InvFlow(st, trees, read);
    match t
    case Operand(v) =>
      OperandStep(st, trees, read, v);
      built := trees + [Num(v)];
    case LParen =>
      LParenStep(st, trees, read);
      built := trees;
    case RParen =>
      built := RParenStep(st, trees, read);
    case Oper(op) =>
      if IsLeaf(st) && !Prefix(op) {
        built := BinaryStep(st, trees, read, op);
      } else {
        built := trees;
        if op == Minus { NegStep(st, trees, read); } else { NotStep(st, trees, read); }
      }
  }

  lemma InvFlow(st: St, trees: seq<Expr>, read: seq<Tok>)
    requires Inv(st, trees, read)
    ensures Flow(st)
  {
  }

  // ------------------------------------------------------------ whole expressions

  /** The loop stops where the accepted tokens end, or at an error. */
  lemma {:induction false} TokensStep(st: St, trees: seq<Expr>, read: seq<Tok>, toks: seq<Tok>) returns (built: seq<Expr>, n: nat)
    requires Inv(st, trees, read) && Tokens(st, toks).Stop? && Plain(toks)
    ensures n <= |toks| && Inv(Tokens(st, toks).st, built, read + toks[..n])
    ensures n < |toks| ==> toks[n] == Other || (toks[n] == RParen && Tokens(st, toks).st.parens == 0)
    decreases |toks|
  {
    hide Inv, Operate, PopToParen;
    if toks == [] || !Token(st, toks[0]).Ok? {
      built, n := trees, 0;
      assert read + toks[..0] == read;
    } else {
      var b := TokenStep(st, trees, read, toks[0]);
      var k;
      built, k := TokensStep(Token(st, toks[0]).st, b, read + [toks[0]], toks[1..]);
      n := k + 1;
      assert read + [toks[0]] + toks[1..][..k] == read + toks[..n];
    }
  }

  predicate Accepted(toks: seq<Tok>) {
    Tokens(INIT, toks).Stop? && Finish(Tokens(INIT, toks).st).Some?
  }

  /** The tree behind accepted tokens, and how many of them it covers. */
  predicate Reads(toks: seq<Tok>, e: Expr, n: nat) {
    n <= |toks| && WellPrec(e) && Show(e) == toks[..n]
    && (n < |toks| ==> toks[n] == Other || toks[n] == RParen)
  }

  lemma InitInv()
    ensures Inv(INIT, [], [])
  {
  }

  lemma FinishOpen(st: St, trees: seq<Expr>, read: seq<Tok>)
    requires Inv(st, trees, read) && Finish(st).Some?
    ensures IsLeaf(st)
  {
    hide Spell, Spelled, PostAll, Parens, Closed, Reversed, Uses;
    if !IsLeaf(st) { OpenUses(st.ops, trees); }
  }

  lemma OneTree(trees: seq<Expr>)
    requires Closed([], trees)
    ensures trees == [trees[0]] && WellPrec(trees[0]) && Spelled([], trees) == Show(trees[0])
    ensures PostAll(trees) == Post(trees[0])
  {
    PostAllLast([], trees[0]);
    assert trees == [] + [trees[0]];
  }

  /** Whatever the parser accepts is a tree the table allows, and the code is that tree's postfix. */
  lemma Sound(toks: seq<Tok>) returns (e: Expr, n: nat)
    requires Plain(toks) && Accepted(toks)
    ensures Reads(toks, e, n)
    ensures Finish(Tokens(INIT, toks).st) == Some(Post(e))
  {
    hide Open, Spell, Parens, PostAll, Spelled, Closed, Tokens, Show, WellPrec, Uses, Reversed;
    var st := Tokens(INIT, toks).st;
    InitInv();
    var trees;
    trees, n := TokensStep(INIT, [], [], toks);
    assert [] + toks[..n] == toks[..n];
    FinishOpen(st, trees, toks[..n]);
    var built := PopAllKeeps(st.ops, trees);
    OneTree(built);
    e := built[0];
  }
}
