/** Which trees bc's expression parser takes when they are written out, and what it makes of them. */
module BcComplete {
  import opened BcExpr
  import opened BcSound

  /** Whether every `!` stands where the parser wants one: where a binary operator could have just been
      read, or right after another `!`. `fresh` and `bang` say so of the place where e starts. */
  predicate Fits(e: Expr, free: bool, bang: bool) {
    match e
    case Num(_) => true
    case Pre(op, x) => if op == Not then (free || bang) && Fits(x, false, true) else Fits(x, false, false)
    case Bin(op, l, r) => Fits(l, free, bang) && Fits(r, true, false)
    case Group(x) => Fits(x, free, false)
  }

  /** The last token of a written tree, and whether the parser then believes it saw a parenthesis. */
  function LastTok(e: Expr): Tok {
    match e
    case Num(v) => Operand(v)
    case Pre(_, x) => LastTok(x)
    case Bin(_, _, r) => LastTok(r)
    case Group(_) => RParen
  }

  /** How many values e's code so far leaves. */
  function Leaves(e: Expr): int {
    1 + Uses(Reversed(Spine(e)))
  }

  /** The state after e has been read. */
  function Past(st: St, e: Expr): St {
    St(st.ops + Spine(e), st.code + Emitted(e), st.nexprs + Leaves(e), st.parens, PNum, false, LastTok(e) == RParen, LastTok(e))
  }

  /** The parser may read an operand and its stack takes e as one. */
  predicate Awaits(st: St, e: Expr) {
    Flow(st) && !IsLeaf(st) && Takes(st.ops, e) && WellPrec(e)
  }

  /** Reading e either fails at a misplaced `!` or leads to the expected state. */
  predicate Reached(st: St, e: Expr, rest: seq<Tok>) {
    Tokens(st, Show(e) + rest)
    == if Fits(e, st.binLast, st.last == Oper(Not)) then Tokens(Past(st, e), rest) else Err
  }

  lemma TokensFirst(st: St, t: Tok, rest: seq<Tok>)
    ensures Tokens(st, [t] + rest) == (if Token(st, t).Ok? then Tokens(Token(st, t).st, rest) else Token(st, t))
  {
    assert ([t] + rest)[1..] == rest;
  }

  lemma UsesAppend(a: seq<Inst>, b: seq<Inst>)
    ensures Uses(a + b) == Uses(a) + Uses(b)
  {
    if a != [] {
      assert (a + b)[1..] == a[1..] + b;
      UsesAppend(a[1..], b);
    } else {
      assert a + b == b;
    }
  }

  // ------------------------------------------------------------------- the stack

  /** `op` pops exactly the spine that lies above what must stay. */
  lemma {:induction false} PopsSpine(base: seq<Entry>, spine: seq<Entry>, op: Op)
    requires forall i :: 0 <= i < |spine| ==> Pops(spine[i], op)
    requires base == [] || !Pops(base[|base| - 1], op)
    ensures PopFor(base + spine, op) == (base, Reversed(spine))
    decreases |spine|
  {
    if spine == [] {
      assert base + spine == base;
    } else {
      var n := |spine|;
      assert (base + spine)[..|base + spine| - 1] == base + spine[..n - 1];
      PopsSpine(base, spine[..n - 1], op);
    }
  }

  lemma {:induction false} PopsToParen(base: seq<Entry>, spine: seq<Entry>)
    requires forall i :: 0 <= i < |spine| ==> spine[i].Opr?
    ensures PopToParen(base + [Paren] + spine) == (base, Reversed(spine))
    decreases |spine|
  {
    var ops := base + [Paren] + spine;
    if spine == [] {
      assert ops == base + [Paren] && ops[..|ops| - 1] == base;
    } else {
      var n := |spine|;
      assert ops[..|ops| - 1] == base + [Paren] + spine[..n - 1];
      PopsToParen(base, spine[..n - 1]);
    }
  }

  /** What waits below takes the left operand as well, and does not give way to the operator. */
  lemma LeftTaken(ops: seq<Entry>, op: Op, l: Expr, r: Expr)
    requires Takes(ops, Bin(op, l, r)) && WellPrec(Bin(op, l, r))
    ensures Takes(ops, l)
    ensures ops == [] || !Pops(ops[|ops| - 1], op)
  {
    if ops != [] && ops[|ops| - 1].Opr? {
      var o := ops[|ops| - 1].op;
      if Prec(o) == Prec(op) { SamePrecSameSide(o, op); }
    }
  }

  // ----------------------------------------------------------------- case by case

  lemma ReadNum(st: St, v: int, rest: seq<Tok>)
    requires Awaits(st, Num(v))
    ensures Reached(st, Num(v), rest)
  {
    TokensFirst(st, Operand(v), rest);
    assert st.ops + [] == st.ops;
  }

  /** The state after a prefix operator. */
  function AfterPrefix(st: St, op: Op): St {
    St(st.ops + [Opr(op)], st.code, st.nexprs, st.parens, if op == Neg then PNeg else PNot, false, false, PrefixTok(op))
  }

  lemma PrefixToken(st: St, op: Op)
    requires Flow(st) && !IsLeaf(st) && Prefix(op)
    ensures Token(st, PrefixTok(op)) == if op == Neg || st.binLast || st.last == Oper(Not) then Ok(AfterPrefix(st, op)) else Err
  {
    assert PopFor(st.ops, Not) == (st.ops, []);
    assert st.code + [] == st.code;
  }

  lemma PastPrefix(st: St, op: Op, x: Expr)
    requires Prefix(op)
    ensures Past(AfterPrefix(st, op), x) == Past(st, Pre(op, x))
  {
    SpineOps(x);
    ReversedCons(Opr(op), Spine(x));
    UsesAppend(Reversed(Spine(x)), [Do(op)]);
    assert st.ops + [Opr(op)] + Spine(x) == st.ops + ([Opr(op)] + Spine(x));
  }

  lemma ReadPrefix(st: St, op: Op, x: Expr, rest: seq<Tok>)
    requires Awaits(st, Pre(op, x))
    requires Reached(AfterPrefix(st, op), x, rest)
    ensures Reached(st, Pre(op, x), rest)
  {
    hide Spine, Emitted, Tokens, Token;
    assert Show(Pre(op, x)) + rest == [PrefixTok(op)] + (Show(x) + rest);
    TokensFirst(st, PrefixTok(op), Show(x) + rest);
    PrefixToken(st, op);
    PastPrefix(st, op, x);
  }

  /** The state after a left operand and its operator. */
  function AfterBinary(st: St, op: Op, l: Expr): St {
    St(st.ops + [Opr(op)], st.code + Post(l), st.nexprs + 1, st.parens, PBin, true, false, Oper(op))
  }

  lemma BinaryToken(st: St, op: Op, l: Expr, r: Expr)
    requires Awaits(st, Bin(op, l, r))
    ensures Token(Past(st, l), Oper(op)) == Ok(AfterBinary(st, op, l)) && !Prefix(op)
  {
    hide Takes, WellPrec, Post, Emitted, Reversed, Uses;
    BinIs(op, l, r);
    LeftTaken(st.ops, op, l, r);
    SpinePops(l, op);
    PopsSpine(st.ops, Spine(l), op);
    SpineOps(l);
    assert st.code + Emitted(l) + Reversed(Spine(l)) == st.code + (Emitted(l) + Reversed(Spine(l)));
  }

  lemma PastBinary(st: St, op: Op, l: Expr, r: Expr)
    requires !Prefix(op)
    ensures Past(AfterBinary(st, op, l), r) == Past(st, Bin(op, l, r))
  {
    SpineOps(r);
    ReversedCons(Opr(op), Spine(r));
    UsesAppend(Reversed(Spine(r)), [Do(op)]);
    assert st.ops + [Opr(op)] + Spine(r) == st.ops + ([Opr(op)] + Spine(r));
    assert st.code + Post(l) + Emitted(r) == st.code + (Post(l) + Emitted(r));
  }

  lemma ReadBinary(st: St, op: Op, l: Expr, r: Expr, rest: seq<Tok>)
    requires Awaits(st, Bin(op, l, r))
    requires Reached(st, l, [Oper(op)] + (Show(r) + rest)) && Reached(AfterBinary(st, op, l), r, rest)
    ensures Reached(st, Bin(op, l, r), rest)
  {
    hide Spine, Emitted, Tokens, Token, Past, AfterBinary, Takes, WellPrec;
    assert Show(Bin(op, l, r)) + rest == Show(l) + ([Oper(op)] + (Show(r) + rest));
    TokensFirst(Past(st, l), Oper(op), Show(r) + rest);
    BinaryToken(st, op, l, r);
    PastBinary(st, op, l, r);
    AfterBinaryFlags(st, op, l);
  }

  lemma AfterBinaryFlags(st: St, op: Op, l: Expr)
    ensures AfterBinary(st, op, l).binLast && AfterBinary(st, op, l).last == Oper(op)
  {
  }

  function AfterLParen(st: St): St {
    st.(ops := st.ops + [Paren], parens := st.parens + 1, rprn := false, last := LParen)
  }

  lemma NotParen(e: Expr)
    ensures LastTok(e) != LParen
  {
  }

  lemma RParenToken(st: St, x: Expr)
    ensures Token(Past(AfterLParen(st), x), RParen) == Ok(Past(st, Group(x)))
  {
    hide Spine, Emitted, Reversed, Uses, PopToParen, LastTok;
    SpineOps(x);
    PopsToParen(st.ops, Spine(x));
    NotParen(x);
    assert st.code + Emitted(x) + Reversed(Spine(x)) == st.code + (Emitted(x) + Reversed(Spine(x)));
    GroupSpine(x);
    assert st.ops + [] == st.ops;
  }

  lemma GroupSpine(x: Expr)
    ensures Spine(Group(x)) == [] && Emitted(Group(x)) == Post(x) && LastTok(Group(x)) == RParen
    ensures Leaves(Group(x)) == 1
  {
  }

  lemma ReadGroup(st: St, x: Expr, rest: seq<Tok>)
    requires Awaits(st, Group(x))
    requires Reached(AfterLParen(st), x, [RParen] + rest)
    ensures Reached(st, Group(x), rest)
  {
    hide Spine, Emitted, Tokens, Past, PopToParen;
    assert Show(Group(x)) + rest == [LParen] + (Show(x) + ([RParen] + rest));
    TokensFirst(st, LParen, Show(x) + ([RParen] + rest));
    TokensFirst(Past(AfterLParen(st), x), RParen, rest);
    RParenToken(st, x);
  }

  /** Reading any tree, wherever an operand may stand. */
  lemma {:induction false} ReadTree(st: St, e: Expr, rest: seq<Tok>)
    requires Awaits(st, e)
    ensures Reached(st, e, rest)
    decreases e
  {
    hide Reached;
    match e
    case Num(v) => ReadNum(st, v, rest);
    case Pre(op, x) =>
      ReadTree(AfterPrefix(st, op), x, rest);
      ReadPrefix(st, op, x, rest);
    case Bin(op, l, r) =>
      LeftTaken(st.ops, op, l, r);
      ReadTree(st, l, [Oper(op)] + (Show(r) + rest));
      ReadTree(AfterBinary(st, op, l), r, rest);
      ReadBinary(st, op, l, r, rest);
    case Group(x) =>
      ReadTree(AfterLParen(st), x, [RParen] + rest);
      ReadGroup(st, x, rest);
  }

  // ----------------------------------------------------------------- whole inputs

  /** What may follow the expression in its surroundings. */
  predicate Ends(rest: seq<Tok>) {
    rest == [] || rest[0] == Other || rest[0] == RParen
  }

  lemma PastStops(e: Expr, rest: seq<Tok>)
    requires Ends(rest)
    ensures Tokens(Past(INIT, e), rest) == Stop(Past(INIT, e))
    ensures Finish(Past(INIT, e)) == Some(Post(e))
  {
    PastFinish(e);
    hide Spine, Emitted, LastTok, Reversed, Uses;
    NotParen(e);
  }

  lemma PastFinish(e: Expr)
    ensures Finish(Past(INIT, e)) == Some(Post(e))
  {
    hide Spine, Emitted, LastTok, Reversed, Uses, Post;
    SpineOps(e);
    assert [] + Spine(e) == Spine(e) && [] + Emitted(e) == Emitted(e);
  }

  /** A well-formed tree is accepted if and only if its `!` fit, and the code is its postfix. */
  lemma Complete(e: Expr, rest: seq<Tok>)
    requires WellPrec(e) && Ends(rest)
    ensures Accepted(Show(e) + rest) <==> Fits(e, true, false)
    ensures Accepted(Show(e) + rest) ==> Finish(Tokens(INIT, Show(e) + rest).st) == Some(Post(e))
  {
    hide Tokens, Finish, WellPrec;
    ReadTree(INIT, e, rest);
    PastStops(e, rest);
  }

  lemma RestEnds(toks: seq<Tok>, e: Expr, n: nat)
    requires Reads(toks, e, n)
    ensures toks == Show(e) + toks[n..] && Ends(toks[n..])
  {
    assert toks == toks[..n] + toks[n..];
  }

  /** Exactly the readings of well-formed trees with fitting `!` are accepted. */
  lemma AcceptedIff(toks: seq<Tok>)
    requires Plain(toks)
    ensures Accepted(toks) <==> exists e: Expr, n: nat :: Reads(toks, e, n) && Fits(e, true, false)
  {
    hide Accepted, Reads;
    if Accepted(toks) {
      var e, n := Sound(toks);
      ReadsWell(toks, e, n);
      RestEnds(toks, e, n);
      Complete(e, toks[n..]);
    }
    if exists e: Expr, n: nat :: Reads(toks, e, n) && Fits(e, true, false) {
      var e: Expr, n: nat :| Reads(toks, e, n) && Fits(e, true, false);
      ReadsWell(toks, e, n);
      RestEnds(toks, e, n);
      Complete(e, toks[n..]);
    }
  }

  lemma ReadsWell(toks: seq<Tok>, e: Expr, n: nat)
    requires Reads(toks, e, n)
    ensures n <= |toks| && WellPrec(e)
  {
  }

  /** All trees behind accepted tokens have the postfix that was emitted; running it leaves their value. */
  lemma OneMeaning(m: Meaning, toks: seq<Tok>, e: Expr, n: nat, stack: seq<int>)
    requires Reads(toks, e, n) && Accepted(toks)
    ensures Finish(Tokens(INIT, toks).st) == Some(Post(e))
    ensures Eval(m, Finish(Tokens(INIT, toks).st).value, stack) == Some(stack + [Value(m, e)])
  {
    hide Tokens, Finish, Eval;
    ReadsWell(toks, e, n);
    RestEnds(toks, e, n);
    Complete(e, toks[n..]);
    PostEvaluates(m, e, [], stack);
    EvalNothing(m, stack + [Value(m, e)]);
    assert Post(e) + [] == Post(e);
  }

  lemma EvalNothing(m: Meaning, stack: seq<int>)
    ensures Eval(m, [], stack) == Some(stack)
  {
  }

  // ------------------------------------------------------------------ one tree

  /** What an emitted operator makes of the trees. */
  function Reduce(op: Op, trees: seq<Expr>): seq<Expr> {
    if |trees| >= (if Prefix(op) then 1 else 2) then Combine(op, trees) else trees
  }

  function Apply(out: seq<Inst>, trees: seq<Expr>): seq<Expr> {
    if out == [] then trees else Apply(out[1..], if out[0].Do? then Reduce(out[0].op, trees) else trees)
  }

  /** The trees after one more token. */
  function Grow(st: St, trees: seq<Expr>, t: Tok): seq<Expr> {
    match t
    case Operand(v) => trees + [Num(v)]
    case RParen =>
      var b := Apply(PopToParen(st.ops).1, trees);
      if b == [] then b else b[..|b| - 1] + [Group(b[|b| - 1])]
    case Oper(op) => if Prefix(op) || !IsLeaf(st) then trees else Apply(PopFor(st.ops, op).1, trees)
    case _ => trees
  }

  /** The trees the parser builds from the tokens, as far as it reads them. */
  function Forest(st: St, trees: seq<Expr>, toks: seq<Tok>): seq<Expr>
    decreases |toks|
  {
    if toks != [] && Token(st, toks[0]).Ok? then Forest(Token(st, toks[0]).st, Grow(st, trees, toks[0]), toks[1..])
    else Apply(Reversed(st.ops), trees)
  }

  /** The trees of an operand whose last operators are still on the stack. */
  function Pending(e: Expr): seq<Expr> {
    match e
    case Num(_) => [e]
    case Pre(_, x) => Pending(x)
    case Bin(_, l, r) => [l] + Pending(r)
    case Group(_) => [e]
  }

  lemma ForestFirst(st: St, trees: seq<Expr>, t: Tok, rest: seq<Tok>)
    requires Token(st, t).Ok?
    ensures Forest(st, trees, [t] + rest) == Forest(Token(st, t).st, Grow(st, trees, t), rest)
  {
    assert ([t] + rest)[1..] == rest;
  }

  lemma {:induction false} ApplyLast(out: seq<Inst>, op: Op, trees: seq<Expr>)
    ensures Apply(out + [Do(op)], trees) == Reduce(op, Apply(out, trees))
  {
    var all := out + [Do(op)];
    if out == [] {
      assert all == [Do(op)] && all[1..] == [];
    } else {
      assert all[1..] == out[1..] + [Do(op)];
      ApplyLast(out[1..], op, if out[0].Do? then Reduce(out[0].op, trees) else trees);
    }
  }

  /** The operators still on the stack finish the tree. */
  lemma {:induction false} ApplySpine(base: seq<Expr>, e: Expr)
    requires WellPrec(e)
    ensures Apply(Reversed(Spine(e)), base + Pending(e)) == base + [e]
    decreases e
  {
    hide Apply, Reversed;
    match e
    case Num(_) => NothingApplied(base + [e]);
    case Group(_) => NothingApplied(base + [e]);
    case Pre(op, x) =>
      ReversedCons(Opr(op), Spine(x));
      ApplyLast(Reversed(Spine(x)), op, base + Pending(x));
      ApplySpine(base, x);
    case Bin(op, l, r) =>
      ReversedCons(Opr(op), Spine(r));
      assert base + Pending(e) == (base + [l]) + Pending(r);
      ApplyLast(Reversed(Spine(r)), op, base + Pending(e));
      ApplySpine(base + [l], r);
      assert (base + [l] + [r])[..|base|] == base;
  }

  lemma NothingApplied(trees: seq<Expr>)
    ensures Apply(Reversed([]), trees) == trees
  {
  }

  lemma LeftPopped(st: St, op: Op, l: Expr, r: Expr, trees: seq<Expr>)
    requires Awaits(st, Bin(op, l, r))
    ensures Grow(Past(st, l), trees + Pending(l), Oper(op)) == trees + [l]
  {
    hide Takes, WellPrec, Reversed, Apply, Pending;
    BinIs(op, l, r);
    LeftTaken(st.ops, op, l, r);
    SpinePops(l, op);
    PopsSpine(st.ops, Spine(l), op);
    ApplySpine(trees, l);
  }

  lemma GroupClosed(st: St, x: Expr, trees: seq<Expr>)
    requires WellPrec(x)
    ensures Grow(Past(AfterLParen(st), x), trees + Pending(x), RParen) == trees + [Group(x)]
  {
    hide Reversed, Apply, Pending, WellPrec;
    SpineOps(x);
    PopsToParen(st.ops, Spine(x));
    ApplySpine(trees, x);
  }

  /** Reading a tree leaves its trees. */
  lemma {:induction false} ForestTree(st: St, trees: seq<Expr>, e: Expr, rest: seq<Tok>)
    requires Awaits(st, e) && Fits(e, st.binLast, st.last == Oper(Not))
    ensures Forest(st, trees, Show(e) + rest) == Forest(Past(st, e), trees + Pending(e), rest)
    decreases e
  {
    match e
    case Num(v) =>
      hide Forest;
      ForestFirst(st, trees, Operand(v), rest);
      assert st.ops + [] == st.ops;
    case Pre(op, x) =>
      ForestTree(AfterPrefix(st, op), trees, x, rest);
      ForestPrefix(st, trees, op, x, rest);
    case Bin(op, l, r) =>
      LeftTaken(st.ops, op, l, r);
      ForestTree(st, trees, l, [Oper(op)] + (Show(r) + rest));
      ForestTree(AfterBinary(st, op, l), trees + [l], r, rest);
      ForestBinary(st, trees, op, l, r, rest);
    case Group(x) =>
      ForestTree(AfterLParen(st), trees, x, [RParen] + rest);
      ForestGroup(st, trees, x, rest);
  }

  lemma ForestPrefix(st: St, trees: seq<Expr>, op: Op, x: Expr, rest: seq<Tok>)
    requires Awaits(st, Pre(op, x)) && Fits(Pre(op, x), st.binLast, st.last == Oper(Not))
    requires Forest(AfterPrefix(st, op), trees, Show(x) + rest) == Forest(Past(AfterPrefix(st, op), x), trees + Pending(x), rest)
    ensures Forest(st, trees, Show(Pre(op, x)) + rest) == Forest(Past(st, Pre(op, x)), trees + Pending(Pre(op, x)), rest)
  {
    hide Forest, Token, Past;
    assert Show(Pre(op, x)) + rest == [PrefixTok(op)] + (Show(x) + rest);
    PrefixToken(st, op);
    ForestFirst(st, trees, PrefixTok(op), Show(x) + rest);
    PastPrefix(st, op, x);
  }

  lemma ForestBinary(st: St, trees: seq<Expr>, op: Op, l: Expr, r: Expr, rest: seq<Tok>)
    requires Awaits(st, Bin(op, l, r))
    requires Forest(st, trees, Show(l) + ([Oper(op)] + (Show(r) + rest)))
             == Forest(Past(st, l), trees + Pending(l), [Oper(op)] + (Show(r) + rest))
    requires Forest(AfterBinary(st, op, l), trees + [l], Show(r) + rest)
             == Forest(Past(AfterBinary(st, op, l), r), trees + [l] + Pending(r), rest)
    ensures Forest(st, trees, Show(Bin(op, l, r)) + rest) == Forest(Past(st, Bin(op, l, r)), trees + Pending(Bin(op, l, r)), rest)
  {
    hide Forest, Token, Past, Grow, AfterBinary, Takes, WellPrec;
    assert Show(Bin(op, l, r)) + rest == Show(l) + ([Oper(op)] + (Show(r) + rest));
    BinaryToken(st, op, l, r);
    LeftPopped(st, op, l, r, trees);
    ForestFirst(Past(st, l), trees + Pending(l), Oper(op), Show(r) + rest);
    PastBinary(st, op, l, r);
    assert trees + [l] + Pending(r) == trees + ([l] + Pending(r));
  }

  lemma ForestGroup(st: St, trees: seq<Expr>, x: Expr, rest: seq<Tok>)
    requires Awaits(st, Group(x))
    requires Forest(AfterLParen(st), trees, Show(x) + ([RParen] + rest)) == Forest(Past(AfterLParen(st), x), trees + Pending(x), [RParen] + rest)
    ensures Forest(st, trees, Show(Group(x)) + rest) == Forest(Past(st, Group(x)), trees + Pending(Group(x)), rest)
  {
    hide Forest, Past, PopToParen, Apply;
    assert Show(Group(x)) + rest == [LParen] + (Show(x) + ([RParen] + rest));
    ForestFirst(st, trees, LParen, Show(x) + ([RParen] + rest));
    RParenToken(st, x);
    GroupClosed(st, x, trees);
    ForestFirst(Past(AfterLParen(st), x), trees + Pending(x), RParen, rest);
  }

  /** The trees behind accepted tokens are the one tree that was written. */
  lemma OneForest(toks: seq<Tok>, e: Expr, n: nat)
    requires Reads(toks, e, n) && Accepted(toks)
    ensures Forest(INIT, [], toks) == [e]
  {
    hide Tokens, Finish, Reversed, Apply, Show;
    ReadsWell(toks, e, n);
    RestEnds(toks, e, n);
    Complete(e, toks[n..]);
    ForestTree(INIT, [], e, toks[n..]);
    PastTrees(e, toks[n..]);
    assert [] + Pending(e) == Pending(e);
  }

  lemma PastTrees(e: Expr, rest: seq<Tok>)
    requires Ends(rest) && WellPrec(e)
    ensures Forest(Past(INIT, e), Pending(e), rest) == [e]
  {
    hide Spine, Reversed, Apply, Emitted, Pending, Uses;
    NotParen(e);
    ApplySpine([], e);
    assert [] + Spine(e) == Spine(e) && [] + Pending(e) == Pending(e);
  }

  /** Accepted tokens are the reading of one tree only, parentheses included, and end in one place. */
  lemma UniqueTree(toks: seq<Tok>, e: Expr, n: nat, e': Expr, n': nat)
    requires Accepted(toks) && Reads(toks, e, n) && Reads(toks, e', n')
    ensures e == e' && n == n'
  {
    hide Accepted, Show;
    OneForest(toks, e, n);
    OneForest(toks, e', n');
    assert [e][0] == [e'][0];
    assert |Show(e)| == n && |Show(e')| == n';
  }
}
