/** The expressions of bc as a grammar with one rule for every kind of operator. It does not look at the operator
    table, and it describes the trees that the table allows. */
module BcGrammar {
  import opened BcExpr
  import opened BcSound
  import opened BcComplete

  // ----------------------------------------------------------------- the rules

  /** primary ::= number | ( expression ) | - primary | ! primary */
  predicate IsPrimary(e: Expr)
    decreases e, 0
  {
    match e
    case Num(_) => true
    case Group(x) => IsExpression(x)
    case Pre(op, x) => (op == Neg || op == Not) && IsPrimary(x)
    case Bin(_, _, _) => false
  }

  /** places ::= primary | primary @ places */
  predicate IsPlaces(e: Expr)
    decreases e, 1
  {
    IsPrimary(e) || (e.Bin? && e.op == Places && IsPrimary(e.l) && IsPlaces(e.r))
  }

  /** power ::= places | places ^ power */
  predicate IsPower(e: Expr)
    decreases e, 2
  {
    IsPlaces(e) || (e.Bin? && e.op == Power && IsPlaces(e.l) && IsPower(e.r))
  }

  /** product ::= power | product * power | product / power | product % power */
  predicate IsProduct(e: Expr)
    decreases e, 3
  {
    IsPower(e) || (e.Bin? && e.op in {Multiply, Divide, Modulus} && IsProduct(e.l) && IsPower(e.r))
  }

  /** sum ::= product | sum + product | sum - product */
  predicate IsSum(e: Expr)
    decreases e, 4
  {
    IsProduct(e) || (e.Bin? && e.op in {Plus, Minus} && IsSum(e.l) && IsProduct(e.r))
  }

  /** shift ::= sum | shift << sum | shift >> sum */
  predicate IsShift(e: Expr)
    decreases e, 5
  {
    IsSum(e) || (e.Bin? && e.op in {LShift, RShift} && IsShift(e.l) && IsSum(e.r))
  }

  /** relation ::= shift | relation == shift | relation <= shift | and so on */
  predicate IsRelation(e: Expr)
    decreases e, 6
  {
    IsShift(e)
    || (e.Bin? && e.op in {RelEq, RelLe, RelGe, RelNe, RelLt, RelGt} && IsRelation(e.l) && IsShift(e.r))
  }

  /** conjunction ::= relation | conjunction && relation */
  predicate IsConjunction(e: Expr)
    decreases e, 7
  {
    IsRelation(e) || (e.Bin? && e.op == BoolAnd && IsConjunction(e.l) && IsRelation(e.r))
  }

  /** expression ::= conjunction | expression || conjunction */
  predicate IsExpression(e: Expr)
    decreases e, 8
  {
    IsConjunction(e) || (e.Bin? && e.op == BoolOr && IsExpression(e.l) && IsConjunction(e.r))
  }

  // ------------------------------------------------- the grammar and the table

  /** A tree the table allows whose own operator binds at least as tight as k. */
  predicate AtMost(e: Expr, k: nat) {
    WellPrec(e) && (e.Bin? ==> Prec(e.op) <= k)
  }

  lemma TightestBinary(e: Expr)
    requires WellPrec(e) && e.Bin?
    ensures Prec(e.op) >= 3
  {
  }

  lemma {:induction false} PrimaryIs(e: Expr)
    ensures IsPrimary(e) <==> AtMost(e, 0)
    ensures AtMost(e, 2) ==> AtMost(e, 0)
    decreases e, 0
  {
    if WellPrec(e) && e.Bin? { TightestBinary(e); }
    match e
    case Group(x) => ExpressionIs(x);
    case Pre(op, x) => PrimaryIs(x);
    case _ =>
  }

  lemma {:induction false} PlacesIs(e: Expr)
    ensures IsPlaces(e) <==> AtMost(e, 3)
    decreases e, 1
  {
    PrimaryIs(e);
    if e.Bin? { PrimaryIs(e.l); PlacesIs(e.r); }
  }

  lemma {:induction false} PowerIs(e: Expr)
    ensures IsPower(e) <==> AtMost(e, 4)
    decreases e, 2
  {
    PlacesIs(e);
    if e.Bin? { PlacesIs(e.l); PowerIs(e.r); }
  }

  lemma {:induction false} ProductIs(e: Expr)
    ensures IsProduct(e) <==> AtMost(e, 5)
    decreases e, 3
  {
    PowerIs(e);
    if e.Bin? { ProductIs(e.l); PowerIs(e.r); }
  }

  lemma {:induction false} SumIs(e: Expr)
    ensures IsSum(e) <==> AtMost(e, 6)
    decreases e, 4
  {
    ProductIs(e);
    if e.Bin? { SumIs(e.l); ProductIs(e.r); }
  }

  lemma {:induction false} ShiftIs(e: Expr)
    ensures IsShift(e) <==> AtMost(e, 7)
    decreases e, 5
  {
    SumIs(e);
    if e.Bin? { ShiftIs(e.l); SumIs(e.r); }
  }

  lemma {:induction false} RelationIs(e: Expr)
    ensures IsRelation(e) <==> AtMost(e, 9)
    decreases e, 6
  {
    ShiftIs(e);
    if e.Bin? { RelationIs(e.l); ShiftIs(e.r); }
  }

  lemma {:induction false} ConjunctionIs(e: Expr)
    ensures IsConjunction(e) <==> AtMost(e, 10)
    decreases e, 7
  {
    RelationIs(e);
    if e.Bin? { ConjunctionIs(e.l); RelationIs(e.r); }
  }

  lemma {:induction false} ExpressionIs(e: Expr)
    ensures IsExpression(e) <==> AtMost(e, 11)
    decreases e, 8
  {
    ConjunctionIs(e);
    if e.Bin? { ExpressionIs(e.l); ConjunctionIs(e.r); }
  }

  /** The table allows exactly the trees of the grammar. */
  lemma GrammarIsTable(e: Expr)
    ensures IsExpression(e) <==> WellPrec(e)
  {
    ExpressionIs(e);
  }

  // -------------------------------------------------------- what the parser makes

  /** The code the parser makes of the tokens, if it accepts them. */
  function Reading(toks: seq<Tok>): Option<seq<Inst>> {
    var r := Tokens(INIT, toks);
    if r.Stop? then Finish(r.st) else None
  }

  /** What may stand beside any operator as it is, with every `!` in a place where the parser takes it. */
  predicate IsOperand(e: Expr) {
    IsPrimary(e) && Fits(e, true, false)
  }

  /** Every expression of the grammar is read, if its `!` are where the parser takes them. */
  lemma GrammarRead(e: Expr)
    requires IsExpression(e) && Fits(e, true, false)
    ensures Reading(Show(e)) == Some(Post(e))
  {
    hide Tokens, Finish, WellPrec, IsExpression, Fits, Show, Post;
    GrammarIsTable(e);
    Complete(e, []);
    assert Show(e) + [] == Show(e);
  }

  function ShowTwo(a: Expr, x: Op, b: Expr, y: Op, c: Expr): seq<Tok> {
    Show(a) + [Oper(x)] + Show(b) + [Oper(y)] + Show(c)
  }

  /** The first operator takes its operands first: the postfix is a b x c y. */
  predicate LeftFirst(a: Expr, x: Op, b: Expr, y: Op, c: Expr) {
    Reading(ShowTwo(a, x, b, y, c)) == Some(Post(a) + Post(b) + [Do(x)] + Post(c) + [Do(y)])
  }

  /** The second one does: the postfix is a b c y x. */
  predicate RightFirst(a: Expr, x: Op, b: Expr, y: Op, c: Expr) {
    Reading(ShowTwo(a, x, b, y, c)) == Some(Post(a) + Post(b) + Post(c) + [Do(y)] + [Do(x)])
  }

  lemma LeftTree(a: Expr, x: Op, b: Expr, y: Op, c: Expr)
    requires IsExpression(Bin(y, Bin(x, a, b), c)) && IsOperand(a) && IsOperand(b) && IsOperand(c)
    ensures LeftFirst(a, x, b, y, c)
  {
    hide IsExpression, IsPrimary, Reading;
    var e := Bin(y, Bin(x, a, b), c);
    assert Show(e) == ShowTwo(a, x, b, y, c);
    assert Post(e) == Post(a) + Post(b) + [Do(x)] + Post(c) + [Do(y)];
    GrammarRead(e);
  }

  lemma RightTree(a: Expr, x: Op, b: Expr, y: Op, c: Expr)
    requires IsExpression(Bin(x, a, Bin(y, b, c))) && IsOperand(a) && IsOperand(b) && IsOperand(c)
    ensures RightFirst(a, x, b, y, c)
  {
    hide IsExpression, IsPrimary, Reading;
    var e := Bin(x, a, Bin(y, b, c));
    RightShown(a, x, b, y, c);
    GrammarRead(e);
  }

  lemma RightShown(a: Expr, x: Op, b: Expr, y: Op, c: Expr)
    ensures Show(Bin(x, a, Bin(y, b, c))) == ShowTwo(a, x, b, y, c)
    ensures Post(Bin(x, a, Bin(y, b, c))) == Post(a) + Post(b) + Post(c) + [Do(y)] + [Do(x)]
  {
    Joined(Show(a), [Oper(x)], Show(b), [Oper(y)], Show(c));
    Joined(Post(a), Post(b), Post(c), [Do(y)], [Do(x)]);
  }

  lemma Joined<T>(a: seq<T>, b: seq<T>, c: seq<T>, d: seq<T>, e: seq<T>)
    ensures a + b + (c + d + e) == a + b + c + d + e
    ensures a + (b + c + d) + e == a + b + c + d + e
  {
  }

  // -------------------------------------------- two operators without parentheses

  /** All binary operators, those that bind tightest first. */
  const ROWS: seq<set<Op>> := [{Places}, {Power}, {Multiply, Divide, Modulus}, {Plus, Minus}, {LShift, RShift},
                               {RelEq, RelLe, RelGe, RelNe, RelLt, RelGt}, {BoolAnd}, {BoolOr}]

  lemma RowPrec(x: Op, i: nat)
    requires i < 8 && x in ROWS[i]
    ensures !Prefix(x) && Prec(x) == [3, 4, 5, 6, 7, 9, 10, 11][i] && (Left(x) <==> i >= 2)
  {
  }

  /** A tree that is no binary operation by itself. */
  predicate Whole(e: Expr) {
    WellPrec(e) && !e.Bin?
  }

  lemma OperandTree(e: Expr)
    requires IsOperand(e)
    ensures Whole(e)
  {
    PrimaryIs(e);
  }

  /** Of two operators of different rows the one of the earlier row goes first; of two of one row the left one
      does, except that `@` and `^` are grouped from the right. */
  lemma TwoOperators(a: Expr, x: Op, b: Expr, y: Op, c: Expr, i: nat, j: nat)
    requires IsOperand(a) && IsOperand(b) && IsOperand(c)
    requires i < 8 && j < 8 && x in ROWS[i] && y in ROWS[j]
    ensures i < j || (i == j && i >= 2) ==> LeftFirst(a, x, b, y, c)
    ensures i > j || (i == j && i < 2) ==> RightFirst(a, x, b, y, c)
  {
    hide IsExpression, IsOperand, LeftFirst, RightFirst, Prec, Prefix, Left, WellPrec;
    OperandTree(a);
    OperandTree(b);
    OperandTree(c);
    RowPrec(x, i);
    RowPrec(y, j);
    if i < j || (i == j && i >= 2) {
      LeftAllowed(a, x, b, y, c);
      GrammarIsTable(Bin(y, Bin(x, a, b), c));
      LeftTree(a, x, b, y, c);
    } else {
      RightAllowed(a, x, b, y, c);
      GrammarIsTable(Bin(x, a, Bin(y, b, c)));
      RightTree(a, x, b, y, c);
    }
  }

  /** Every boundary between two rows, from both sides. */
  lemma Boundaries(a: Expr, b: Expr, c: Expr)
    requires IsOperand(a) && IsOperand(b) && IsOperand(c)
    ensures RightFirst(a, Power, b, Places, c) && LeftFirst(a, Places, b, Power, c)
    ensures RightFirst(a, Multiply, b, Power, c) && LeftFirst(a, Power, b, Multiply, c)
    ensures RightFirst(a, Plus, b, Multiply, c) && LeftFirst(a, Multiply, b, Plus, c)
    ensures RightFirst(a, LShift, b, Plus, c) && LeftFirst(a, Plus, b, LShift, c)
    ensures RightFirst(a, RelLt, b, LShift, c) && LeftFirst(a, LShift, b, RelLt, c)
    ensures RightFirst(a, BoolAnd, b, RelLt, c) && LeftFirst(a, RelLt, b, BoolAnd, c)
    ensures RightFirst(a, BoolOr, b, BoolAnd, c) && LeftFirst(a, BoolAnd, b, BoolOr, c)
  {
    hide LeftFirst, RightFirst, IsOperand;
    TwoOperators(a, Power, b, Places, c, 1, 0);
    TwoOperators(a, Places, b, Power, c, 0, 1);
    TwoOperators(a, Multiply, b, Power, c, 2, 1);
    TwoOperators(a, Power, b, Multiply, c, 1, 2);
    TwoOperators(a, Plus, b, Multiply, c, 3, 2);
    TwoOperators(a, Multiply, b, Plus, c, 2, 3);
    TwoOperators(a, LShift, b, Plus, c, 4, 3);
    TwoOperators(a, Plus, b, LShift, c, 3, 4);
    TwoOperators(a, RelLt, b, LShift, c, 5, 4);
    TwoOperators(a, LShift, b, RelLt, c, 4, 5);
    TwoOperators(a, BoolAnd, b, RelLt, c, 6, 5);
    TwoOperators(a, RelLt, b, BoolAnd, c, 5, 6);
    TwoOperators(a, BoolOr, b, BoolAnd, c, 7, 6);
    TwoOperators(a, BoolAnd, b, BoolOr, c, 6, 7);
  }

  /** Operators of one row: `@` and `^` are grouped from the right, all others from the left. */
  lemma SameRow(a: Expr, b: Expr, c: Expr)
    requires IsOperand(a) && IsOperand(b) && IsOperand(c)
    ensures RightFirst(a, Places, b, Places, c) && RightFirst(a, Power, b, Power, c)
    ensures LeftFirst(a, Divide, b, Multiply, c) && LeftFirst(a, Multiply, b, Modulus, c)
    ensures LeftFirst(a, Minus, b, Minus, c) && LeftFirst(a, Minus, b, Plus, c)
    ensures LeftFirst(a, LShift, b, RShift, c) && LeftFirst(a, RelLt, b, RelEq, c)
    ensures LeftFirst(a, RelLe, b, RelNe, c) && LeftFirst(a, RelGe, b, RelGt, c)
    ensures LeftFirst(a, BoolAnd, b, BoolAnd, c) && LeftFirst(a, BoolOr, b, BoolOr, c)
  {
    hide LeftFirst, RightFirst, IsOperand;
    TwoOperators(a, Places, b, Places, c, 0, 0);
    TwoOperators(a, Power, b, Power, c, 1, 1);
    TwoOperators(a, Divide, b, Multiply, c, 2, 2);
    TwoOperators(a, Multiply, b, Modulus, c, 2, 2);
    TwoOperators(a, Minus, b, Minus, c, 3, 3);
    TwoOperators(a, Minus, b, Plus, c, 3, 3);
    TwoOperators(a, LShift, b, RShift, c, 4, 4);
    TwoOperators(a, RelLt, b, RelEq, c, 5, 5);
    TwoOperators(a, RelLe, b, RelNe, c, 5, 5);
    TwoOperators(a, RelGe, b, RelGt, c, 5, 5);
    TwoOperators(a, BoolAnd, b, BoolAnd, c, 6, 6);
    TwoOperators(a, BoolOr, b, BoolOr, c, 7, 7);
  }

  /** A minus sign or `!` in front belongs to the operand right after it, whatever operator follows. */
  lemma SignFirst(p: Op, a: Expr, x: Op, b: Expr)
    requires p == Neg || p == Not
    requires IsOperand(a) && Fits(a, false, p == Not) && IsOperand(b) && x != Neg && x != Not
    ensures Reading([Oper(if p == Neg then Minus else Not)] + Show(a) + [Oper(x)] + Show(b))
            == Some(Post(a) + [Do(p)] + Post(b) + [Do(x)])
  {
    hide IsExpression, IsOperand, Reading, IsPrimary;
    OperandTree(a);
    OperandTree(b);
    var e := Bin(x, Pre(p, a), b);
    GrammarIsTable(e);
    assert Show(e) == [Oper(if p == Neg then Minus else Not)] + Show(a) + [Oper(x)] + Show(b);
    FitsOf(b);
    GrammarRead(e);
  }

  lemma FitsOf(e: Expr)
    requires IsOperand(e)
    ensures Fits(e, true, false)
  {
  }

  // ------------------------------------------------------------- the shortest texts

  lemma OneMore(st: St, t: Tok, rest: seq<Tok>)
    ensures Tokens(st, [t] + rest) == if Token(st, t).Ok? then Tokens(Token(st, t).st, rest) else Token(st, t)
  {
    assert ([t] + rest)[1..] == rest;
  }

  /** No operator but a minus sign or `!` begins an expression. */
  lemma FirstRefused(op: Op, rest: seq<Tok>)
    requires op != Minus && op != Neg && op != Not
    ensures Reading([Oper(op)] + rest) == None
  {
    OneMore(INIT, Oper(op), rest);
  }

  lemma SecondWrong(t: Tok, u: Tok, rest: seq<Tok>)
    requires Token(INIT, t).Ok? && Token(Token(INIT, t).st, u) == Err
    ensures Reading([t, u] + rest) == None
  {
    hide Token;
    OneMore(INIT, t, [u] + rest);
    OneMore(Token(INIT, t).st, u, rest);
    assert [t, u] + rest == [t] + ([u] + rest);
  }

  /** Two numbers in a row, a `!` after a minus sign, and empty parentheses are refused, whatever follows. */
  lemma SecondRefused(a: int, b: int, rest: seq<Tok>)
    ensures Reading([Operand(a), Operand(b)] + rest) == None
    ensures Reading([Oper(Minus), Oper(Not)] + rest) == None
    ensures Reading([LParen, RParen] + rest) == None
  {
    hide Reading;
    SecondWrong(Operand(a), Operand(b), rest);
    SecondWrong(Oper(Minus), Oper(Not), rest);
    SecondWrong(LParen, RParen, rest);
  }

  /** Signs are applied from the inside, and parentheses leave no code. */
  lemma SmallTexts(a: int)
    ensures Reading([Operand(a)]) == Some([Push(a)])
    ensures Reading([Oper(Minus), Operand(a)]) == Some([Push(a), Do(Neg)])
    ensures Reading([Oper(Not), Operand(a)]) == Some([Push(a), Do(Not)])
    ensures Reading([Oper(Not), Oper(Minus), Operand(a)]) == Some([Push(a), Do(Neg), Do(Not)])
    ensures Reading([LParen, Operand(a), RParen]) == Some([Push(a)])
  {
    hide Reading;
    SmallTrees(a);
    GrammarRead(Num(a));
    GrammarRead(Pre(Neg, Num(a)));
    GrammarRead(Pre(Not, Num(a)));
    GrammarRead(Pre(Not, Pre(Neg, Num(a))));
    GrammarRead(Group(Num(a)));
  }

  lemma SmallTrees(a: int)
    ensures forall e :: e in {Num(a), Pre(Neg, Num(a)), Pre(Not, Num(a)), Pre(Not, Pre(Neg, Num(a))), Group(Num(a))}
              ==> IsExpression(e) && Fits(e, true, false)
    ensures Show(Pre(Neg, Num(a))) == [Oper(Minus), Operand(a)] && Post(Pre(Neg, Num(a))) == [Push(a), Do(Neg)]
    ensures Show(Pre(Not, Num(a))) == [Oper(Not), Operand(a)] && Post(Pre(Not, Num(a))) == [Push(a), Do(Not)]
    ensures Show(Pre(Not, Pre(Neg, Num(a)))) == [Oper(Not), Oper(Minus), Operand(a)]
    ensures Post(Pre(Not, Pre(Neg, Num(a)))) == [Push(a), Do(Neg), Do(Not)]
    ensures Show(Group(Num(a))) == [LParen, Operand(a), RParen] && Post(Group(Num(a))) == [Push(a)]
  {
    assert Fits(Pre(Neg, Num(a)), false, true) && Fits(Num(a), true, false);
    forall e | e in {Num(a), Pre(Neg, Num(a)), Pre(Not, Num(a)), Pre(Not, Pre(Neg, Num(a))), Group(Num(a))}
      ensures IsExpression(e)
    {
      assert WellPrec(Pre(Neg, Num(a)));
      GrammarIsTable(e);
    }
  }

  // ----------------------------------------------------------- numbers and values

  /** The first operator of `a x b y c` goes first. */
  predicate Sooner(x: Op, y: Op) {
    exists i, j :: 0 <= i <= j < 8 && x in ROWS[i] && y in ROWS[j] && (i < j || i >= 2)
  }

  /** The second one does. */
  predicate Later(x: Op, y: Op) {
    exists i, j :: 0 <= j <= i < 8 && x in ROWS[i] && y in ROWS[j] && (i > j || i < 2)
  }

  function Five(a: int, x: Op, b: int, y: Op, c: int): seq<Tok> {
    [Operand(a), Oper(x), Operand(b), Oper(y), Operand(c)]
  }

  lemma ShownLeft(a: int, x: Op, b: int, y: Op, c: int)
    ensures Show(Bin(y, Bin(x, Num(a), Num(b)), Num(c))) == Five(a, x, b, y, c)
    ensures Post(Bin(y, Bin(x, Num(a), Num(b)), Num(c))) == [Push(a), Push(b), Do(x), Push(c), Do(y)]
  {
    var e := Bin(x, Num(a), Num(b));
    assert Show(e) == [Operand(a), Oper(x), Operand(b)];
    assert Post(e) == [Push(a), Push(b), Do(x)];
    assert Show(Num(c)) == [Operand(c)] && Post(Num(c)) == [Push(c)];
  }

  lemma ShownRight(a: int, x: Op, b: int, y: Op, c: int)
    ensures Show(Bin(x, Num(a), Bin(y, Num(b), Num(c)))) == Five(a, x, b, y, c)
    ensures Post(Bin(x, Num(a), Bin(y, Num(b), Num(c)))) == [Push(a), Push(b), Push(c), Do(y), Do(x)]
  {
    var e := Bin(y, Num(b), Num(c));
    assert Show(e) == [Operand(b), Oper(y), Operand(c)];
    assert Post(e) == [Push(b), Push(c), Do(y)];
    assert Show(Num(a)) == [Operand(a)] && Post(Num(a)) == [Push(a)];
  }

  lemma FitsTwo(a: int, x: Op, b: int, y: Op, c: int)
    ensures Fits(Bin(x, Num(a), Bin(y, Num(b), Num(c))), true, false)
    ensures Fits(Bin(y, Bin(x, Num(a), Num(b)), Num(c)), true, false)
  {
    assert Fits(Bin(y, Num(b), Num(c)), true, false) && Fits(Bin(x, Num(a), Num(b)), true, false);
  }

  lemma SoonerTable(x: Op, y: Op)
    requires Sooner(x, y)
    ensures !Prefix(x) && !Prefix(y) && (Prec(x) < Prec(y) || (Prec(x) == Prec(y) && Left(y)))
  {
    hide Prec, Left, Prefix;
    var i, j :| 0 <= i <= j < 8 && x in ROWS[i] && y in ROWS[j] && (i < j || i >= 2);
    RowPrec(x, i);
    RowPrec(y, j);
  }

  lemma LaterTable(x: Op, y: Op)
    requires Later(x, y)
    ensures !Prefix(x) && !Prefix(y) && (Prec(y) < Prec(x) || (Prec(x) == Prec(y) && !Left(x)))
  {
    hide Prec, Left, Prefix;
    var i, j :| 0 <= j <= i < 8 && x in ROWS[i] && y in ROWS[j] && (i > j || i < 2);
    RowPrec(x, i);
    RowPrec(y, j);
  }

  lemma LeftAllowed(a: Expr, x: Op, b: Expr, y: Op, c: Expr)
    requires Whole(a) && Whole(b) && Whole(c)
    requires !Prefix(x) && !Prefix(y) && (Prec(x) < Prec(y) || (Prec(x) == Prec(y) && Left(y)))
    ensures WellPrec(Bin(y, Bin(x, a, b), c))
  {
    hide Prec, Left, Prefix;
    assert WellPrec(Bin(x, a, b));
  }

  lemma RightAllowed(a: Expr, x: Op, b: Expr, y: Op, c: Expr)
    requires Whole(a) && Whole(b) && Whole(c)
    requires !Prefix(x) && !Prefix(y) && (Prec(y) < Prec(x) || (Prec(x) == Prec(y) && !Left(x)))
    ensures WellPrec(Bin(x, a, Bin(y, b, c)))
  {
    hide Prec, Left, Prefix;
    assert WellPrec(Bin(y, b, c));
  }

  lemma SoonerAllowed(a: int, x: Op, b: int, y: Op, c: int)
    requires Sooner(x, y)
    ensures WellPrec(Bin(y, Bin(x, Num(a), Num(b)), Num(c)))
  {
    hide Sooner, Prec, Left, Prefix;
    SoonerTable(x, y);
    LeftAllowed(Num(a), x, Num(b), y, Num(c));
  }

  lemma LaterAllowed(a: int, x: Op, b: int, y: Op, c: int)
    requires Later(x, y)
    ensures WellPrec(Bin(x, Num(a), Bin(y, Num(b), Num(c))))
  {
    hide Later, Prec, Left, Prefix;
    LaterTable(x, y);
    RightAllowed(Num(a), x, Num(b), y, Num(c));
  }

  /** Numbers with operators between them, read as the rows say. */
  lemma NumbersLeft(a: int, x: Op, b: int, y: Op, c: int)
    requires Sooner(x, y)
    ensures Grouped(Five(a, x, b, y, c), Bin(y, Bin(x, Num(a), Num(b)), Num(c)))
    ensures Post(Bin(y, Bin(x, Num(a), Num(b)), Num(c))) == [Push(a), Push(b), Do(x), Push(c), Do(y)]
  {
    hide Show, WellPrec, Fits, Sooner;
    SoonerAllowed(a, x, b, y, c);
    ShownLeft(a, x, b, y, c);
    FitsTwo(a, x, b, y, c);
  }

  lemma NumbersRight(a: int, x: Op, b: int, y: Op, c: int)
    requires Later(x, y)
    ensures Grouped(Five(a, x, b, y, c), Bin(x, Num(a), Bin(y, Num(b), Num(c))))
    ensures Post(Bin(x, Num(a), Bin(y, Num(b), Num(c)))) == [Push(a), Push(b), Push(c), Do(y), Do(x)]
  {
    hide Show, WellPrec, Fits, Later;
    LaterAllowed(a, x, b, y, c);
    ShownRight(a, x, b, y, c);
    FitsTwo(a, x, b, y, c);
  }

  /** The tokens are all of a tree that the parser takes. */
  predicate Grouped(toks: seq<Tok>, e: Expr) {
    Reads(toks, e, |toks|) && Fits(e, true, false)
  }

  /** Running the code of two numbers and an operator applies the operator to them, the left one first. */
  lemma OperandOrder(m: Meaning, a: int, b: int, op: Op, stack: seq<int>)
    requires op != Neg && op != Not
    ensures Eval(m, [Push(a), Push(b), Do(op)], stack) == Some(stack + [m.two(op, a, b)])
  {
    PostEvaluates(m, Bin(op, Num(a), Num(b)), [], stack);
    assert Post(Bin(op, Num(a), Num(b))) + [] == [Push(a), Push(b), Do(op)];
    EvalNothing(m, stack + [m.two(op, a, b)]);
  }
}
