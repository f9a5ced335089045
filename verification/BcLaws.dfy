/** What the statements of bc mean in terms of each other, and the bytes of index operands. */
module BcLaws {
  import opened Positional
  import opened BcCode
  import opened BcParser
  import opened BcRun

  /** A condition whose value is not zero lets the statement under it run, in place of the other one; zero passes it
      over, and ends a loop. The value is popped either way. */
  lemma Conditions<S>(m: Machine<S>, c: seq<Ins>, b: Stmt, e: Stmt, s: S, fuel: nat)
    ensures var x := Eval(m, c, s);
            if m.zero(x) then
              && Run(m, If(c, b), s, fuel) == Done(m.pop(x)) == Run(m, While(c, b), s, fuel)
              && Run(m, IfElse(c, b, e), s, fuel) == Run(m, e, m.pop(x), fuel)
            else
              && Run(m, If(c, b), s, fuel) == Run(m, b, m.pop(x), fuel) == Run(m, IfElse(c, b, e), s, fuel)
  {
  }

  /** A while loop is its body under the condition and then the loop again; continue begins that again early, and
      break ends it. */
  lemma Unrolled<S>(m: Machine<S>, c: seq<Ins>, b: Stmt, s: S, fuel: nat)
    requires fuel > 0 && !m.zero(Eval(m, c, s))
    ensures var o := Run(m, b, m.pop(Eval(m, c, s)), fuel);
            && (o.Done? || o.Continued? ==> Run(m, While(c, b), s, fuel) == Run(m, While(c, b), o.s, fuel - 1))
            && (o.Broke? ==> Run(m, While(c, b), s, fuel) == Done(o.s))
  {
  }

  /** No continue of this statement's own; loops inside it may have theirs. */
  predicate NoContinue(t: Stmt) {
    match t
    case Seq(a, b) => NoContinue(a) && NoContinue(b)
    case If(_, b) => NoContinue(b)
    case IfElse(_, b, e) => NoContinue(b) && NoContinue(e)
    case Continue => false
    case _ => true
  }

  lemma {:induction false} LoopCatches<S>(m: Machine<S>, c: seq<Ins>, u: seq<Ins>, b: Stmt, s: S, fuel: nat)
    ensures !Run(m, While(c, b), s, fuel).Continued? && !Run(m, While(c, b), s, fuel).Broke?
    ensures !RunFor(m, c, u, b, s, fuel).Continued? && !RunFor(m, c, u, b, s, fuel).Broke?
    decreases fuel
  {
    var x := Eval(m, c, s);
    if !m.zero(x) && fuel > 0 {
      var o := Run(m, b, m.pop(x), fuel);
      if !o.Timeout? && !o.Broke? {
        LoopCatches(m, c, u, b, o.s, fuel - 1);
        LoopCatches(m, c, u, b, Eval(m, u, o.s), fuel - 1);
      }
    }
  }

  lemma {:induction false} NeverContinued<S>(m: Machine<S>, t: Stmt, s: S, fuel: nat)
    requires NoContinue(t)
    ensures !Run(m, t, s, fuel).Continued?
    decreases t
  {
    match t
    case Seq(a, b) =>
      NeverContinued(m, a, s, fuel);
      var o := Run(m, a, s, fuel);
      if o.Done? { NeverContinued(m, b, o.s, fuel); }
    case If(c, b) => NeverContinued(m, b, m.pop(Eval(m, c, s)), fuel);
    case IfElse(c, b, e) =>
      NeverContinued(m, b, m.pop(Eval(m, c, s)), fuel);
      NeverContinued(m, e, m.pop(Eval(m, c, s)), fuel);
    case While(c, b) => LoopCatches(m, c, [], b, s, fuel);
    case For(i, c, u, b) => LoopCatches(m, c, u, b, Eval(m, i, s), fuel);
    case _ =>
  }

  lemma {:induction false} RunForIsWhile<S>(m: Machine<S>, c: seq<Ins>, u: seq<Ins>, b: Stmt, s: S, fuel: nat)
    requires NoContinue(b)
    ensures RunFor(m, c, u, b, s, fuel) == Run(m, While(c, Seq(b, Do(u))), s, fuel)
    decreases fuel
  {
    var x := Eval(m, c, s);
    if !m.zero(x) {
      NeverContinued(m, b, m.pop(x), fuel);
      var o := Run(m, b, m.pop(x), fuel);
      BodyThenUpdate(m, u, b, m.pop(x), fuel);
      if o.Done? && fuel > 0 { RunForIsWhile(m, c, u, b, Eval(m, u, o.s), fuel - 1); }
    }
  }

  lemma BodyThenUpdate<S>(m: Machine<S>, u: seq<Ins>, b: Stmt, s: S, fuel: nat)
    ensures var o := Run(m, b, s, fuel);
            Run(m, Seq(b, Do(u)), s, fuel) == if o.Done? then Done(Eval(m, u, o.s)) else o
  {
  }

  /** A for loop without continue is its first part and then a while loop that updates after the body. */
  lemma ForIsWhile<S>(m: Machine<S>, i: seq<Ins>, c: seq<Ins>, u: seq<Ins>, b: Stmt, s: S, fuel: nat)
    requires NoContinue(b)
    ensures Run(m, For(i, c, u, b), s, fuel) == Run(m, Seq(Do(i), While(c, Seq(b, Do(u)))), s, fuel)
  {
    hide RunFor;
    RunForIsWhile(m, c, u, b, Eval(m, i, s), fuel);
    assert Run(m, Do(i), s, fuel) == Done(Eval(m, i, s));
  }

  /** In a for loop continue skips the rest of the body, but not the update. */
  lemma ForContinues<S>(m: Machine<S>, i: seq<Ins>, c: seq<Ins>, u: seq<Ins>, b: Stmt, rest: Stmt, s: S, fuel: nat)
    requires fuel > 0 && !m.zero(Eval(m, c, Eval(m, i, s)))
    requires Run(m, b, m.pop(Eval(m, c, Eval(m, i, s))), fuel).Continued?
    ensures var o := Run(m, b, m.pop(Eval(m, c, Eval(m, i, s))), fuel);
            Run(m, For(i, c, u, Seq(b, rest)), s, fuel) == Run(m, For(u, c, u, Seq(b, rest)), o.s, fuel - 1)
  {
    var x := m.pop(Eval(m, c, Eval(m, i, s)));
    assert Run(m, Seq(b, rest), x, fuel) == Run(m, b, x, fuel);
  }

  // ---------------------------------------------------------------- operands

  /** An operand is as many bytes as its number needs, that count in front, and byte i is the number's digit of weight
      256^i. */
  lemma {:induction false} OperandBytes(idx: nat)
    ensures var n := Operand(idx)[0];
            && |Operand(idx)| == 1 + n && n >= 0 && idx < Pow(256, n) && (n > 0 ==> Pow(256, n - 1) <= idx)
            && forall i :: 0 <= i < n ==> Pow(256, i) > 0 && Operand(idx)[1 + i] == idx / Pow(256, i) % 256
  {
    if idx > 0 {
      OperandBytes(idx / 256);
      var n := |Bytes(idx)|;
      forall i | 0 <= i < n ensures Pow(256, i) > 0 && Bytes(idx)[i] == idx / Pow(256, i) % 256 {
        if i > 0 {
          assert Bytes(idx)[i] == Bytes(idx / 256)[i - 1] == Operand(idx / 256)[1 + (i - 1)];
          DivDiv(idx, 256, Pow(256, i - 1));
        }
      }
    }
  }
}
