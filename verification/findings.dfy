/** Where REPL.c as written departs from what its authors evidently meant,
    each shown on a concrete input, with the corrected behaviour beside it. */
module Findings {
  import opened CLong
  import opened Values
  import opened Syntax
  import opened Trees
  import Tables
  import Evaluator
  import AsWritten
  import Properties
  import Agreement

  /** A `-` form whose second operand is a literal is, as written, the
      negation of its first operand: the operands after the first are never
      evaluated, whatever they are. */
  lemma {:induction false} MinusIgnoresLaterOperands(first: Node, b: int, rest: seq<Node>)
    requires AreOperands([first, Literal(b)] + rest)
    ensures AsWritten.Eval(Group(OperatorLeaf("-"), [first, Literal(b)] + rest)) ==
              AsWritten.Negate(AsWritten.Eval(first))
  {
    var args := [first, Literal(b)] + rest;
    var t := Group(OperatorLeaf("-"), args);
    ShapedFacts(t, OperatorLeaf("-"), args);
    assert t.children[2] == args[0] == first;
    assert t.children[3] == args[1] == Literal(b);
  }

  /** `(- a b)` with a literal `b`: as written the result is `-a`, because
      the literal after the first operand is a leaf; intended is `a - b`. */
  lemma {:induction false} MinusWithLiteralSecondOperand(a: int, b: int)
    requires InLong(a) && InLong(b) && InLong(-a)
    ensures AsWritten.Eval(Group(OperatorLeaf("-"), [Literal(a), Literal(b)])) == AsWritten.Returns(Num(-a))
    ensures Evaluator.Eval(Group(OperatorLeaf("-"), [Literal(a), Literal(b)])) == Num(a - b)
  {
    MinusIgnoresLaterOperands(Literal(a), b, []);
    Agreement.AsWrittenLiteral(a);
    assert [Literal(a), Literal(b)] + [] == [Literal(a), Literal(b)];
    Properties.EvalBinary(OperatorLeaf("-"), a, b);
  }

  /** The line `- 5 3`, and the form `(- 5 3)`, are -5 as written and 2 as
      intended. */
  lemma {:induction false} MinusFiveThree()
    ensures AsWritten.Eval(Line(OperatorLeaf("-"), [Literal(5), Literal(3)])) == AsWritten.Returns(Num(-5))
    ensures Evaluator.Eval(Line(OperatorLeaf("-"), [Literal(5), Literal(3)])) == Num(2)
    ensures AsWritten.Eval(Group(OperatorLeaf("-"), [Literal(5), Literal(3)])) == AsWritten.Returns(Num(-5))
    ensures Evaluator.Eval(Group(OperatorLeaf("-"), [Literal(5), Literal(3)])) == Num(2)
  {
    MinusWithLiteralSecondOperand(5, 3);
    Agreement.LineAsWritten(OperatorLeaf("-"), [Literal(5), Literal(3)]);
    Properties.LineEvaluatesAsGroup(OperatorLeaf("-"), [Literal(5), Literal(3)]);
  }

  /** The line `- 10 1 2` is -10 as written, not the left fold 7: the unary
      branch returns before the operand loop runs. */
  lemma {:induction false} MinusTenOneTwo()
    ensures AsWritten.Eval(Line(OperatorLeaf("-"), [Literal(10), Literal(1), Literal(2)])) ==
              AsWritten.Returns(Num(-10))
    ensures Evaluator.Eval(Line(OperatorLeaf("-"), [Literal(10), Literal(1), Literal(2)])) == Num(7)
    ensures AsWritten.Eval(Group(OperatorLeaf("-"), [Literal(10), Literal(1), Literal(2)])) ==
              AsWritten.Returns(Num(-10))
    ensures Evaluator.Eval(Group(OperatorLeaf("-"), [Literal(10), Literal(1), Literal(2)])) == Num(7)
  {
    MinusIgnoresLaterOperands(Literal(10), 1, [Literal(2)]);
    assert [Literal(10), Literal(1)] + [Literal(2)] == [Literal(10), Literal(1), Literal(2)];
    Properties.LeftToRight();
    Agreement.LineAsWritten(OperatorLeaf("-"), [Literal(10), Literal(1), Literal(2)]);
    Properties.LineEvaluatesAsGroup(OperatorLeaf("-"), [Literal(10), Literal(1), Literal(2)]);
  }

  /** The exponent test is true for every symbol except `**`: an unknown
      symbol such as `@` computes a power where `BadOp` is intended, and
      `**` gives `BadOp` where a power is intended. */
  lemma ExponentTest()
    ensures AsWritten.GetOp(Num(2), "@", Num(3)) == AsWritten.Returns(Num(8))
    ensures Tables.GetOp(Num(2), "@", Num(3)) == Err(BadOp)
    ensures AsWritten.GetOp(Num(2), "**", Num(3)) == AsWritten.Returns(Err(BadOp))
    ensures Tables.GetOp(Num(2), "**", Num(3)) == Num(8)
  {
    assert Tables.IntPow(2, 3) == 8;
  }

  /** The line `% a 0`, and the form `(% a 0)`: as written the remainder by
      zero is undefined behaviour (on common hardware the process dies);
      intended is `DivZero`, as for `/`. */
  lemma {:induction false} RemainderByZero(a: int)
    requires InLong(a)
    ensures AsWritten.Eval(Line(OperatorLeaf("%"), [Literal(a), Literal(0)])).Unpredictable?
    ensures Evaluator.Eval(Line(OperatorLeaf("%"), [Literal(a), Literal(0)])) == Err(DivZero)
    ensures AsWritten.Eval(Group(OperatorLeaf("%"), [Literal(a), Literal(0)])).Unpredictable?
    ensures Evaluator.Eval(Group(OperatorLeaf("%"), [Literal(a), Literal(0)])) == Err(DivZero)
  {
    Agreement.SmallForm(OperatorLeaf("%"), [Literal(a), Literal(0)]);
    Properties.Division(a, 0);
    Agreement.LineAsWritten(OperatorLeaf("%"), [Literal(a), Literal(0)]);
    Properties.LineEvaluatesAsGroup(OperatorLeaf("%"), [Literal(a), Literal(0)]);
  }

  /** The line `^ 0 -1`: as written `pow(0, -1)` is an infinity whose
      conversion to `long` is undefined; intended is `DivZero`. */
  lemma {:induction false} ZeroToNegativePower()
    ensures AsWritten.Eval(Line(OperatorLeaf("^"), [Literal(0), Literal(-1)])).Unpredictable?
    ensures Evaluator.Eval(Line(OperatorLeaf("^"), [Literal(0), Literal(-1)])) == Err(DivZero)
  {
    Agreement.AsWrittenBinary(OperatorLeaf("^"), 0, -1);
    Properties.EvalBinary(OperatorLeaf("^"), 0, -1);
    Agreement.LineAsWritten(OperatorLeaf("^"), [Literal(0), Literal(-1)]);
    Properties.LineEvaluatesAsGroup(OperatorLeaf("^"), [Literal(0), Literal(-1)]);
  }

  /** The line `min (/ 1 0) 1`: as written `get_func` reads the unset number of the
      division error; intended is that the error propagates. */
  lemma {:induction false} FunctionOfError()
    ensures AsWritten.Eval(Line(FunctionLeaf("min"), [Group(OperatorLeaf("/"), [Literal(1), Literal(0)]), Literal(1)]))
              .Unpredictable?
    ensures Evaluator.Eval(Line(FunctionLeaf("min"), [Group(OperatorLeaf("/"), [Literal(1), Literal(0)]), Literal(1)]))
              == Err(DivZero)
    ensures AsWritten.Eval(Group(FunctionLeaf("min"), [Group(OperatorLeaf("/"), [Literal(1), Literal(0)]), Literal(1)]))
              .Unpredictable?
    ensures Evaluator.Eval(Group(FunctionLeaf("min"), [Group(OperatorLeaf("/"), [Literal(1), Literal(0)]), Literal(1)]))
              == Err(DivZero)
  {
    var inner := Group(OperatorLeaf("/"), [Literal(1), Literal(0)]);
    Agreement.SmallForm(OperatorLeaf("/"), [Literal(1), Literal(0)]);
    assert AsWritten.Eval(inner) == AsWritten.Returns(Err(DivZero));
    Agreement.SmallForm(FunctionLeaf("min"), [inner, Literal(1)]);
    Properties.Division(1, 0);
    var args := [inner, Literal(1)];
    Properties.EvalForm(Group(FunctionLeaf("min"), args), FunctionLeaf("min"), args);
    Properties.ErrorAbsorbs(Function("min"), DivZero, Properties.EvalFrom(args, 1));
    Agreement.LineAsWritten(FunctionLeaf("min"), args);
    Properties.LineEvaluatesAsGroup(FunctionLeaf("min"), args);
  }

  /** The line `- (/ 1 0)`: as written the unary branch negates the unset number
      of the division error; intended is that the error propagates. */
  lemma {:induction false} NegationOfError()
    ensures AsWritten.Eval(Line(OperatorLeaf("-"), [Group(OperatorLeaf("/"), [Literal(1), Literal(0)])]))
              .Unpredictable?
    ensures Evaluator.Eval(Line(OperatorLeaf("-"), [Group(OperatorLeaf("/"), [Literal(1), Literal(0)])]))
              == Err(DivZero)
    ensures AsWritten.Eval(Group(OperatorLeaf("-"), [Group(OperatorLeaf("/"), [Literal(1), Literal(0)])]))
              .Unpredictable?
    ensures Evaluator.Eval(Group(OperatorLeaf("-"), [Group(OperatorLeaf("/"), [Literal(1), Literal(0)])]))
              == Err(DivZero)
  {
    var inner := Group(OperatorLeaf("/"), [Literal(1), Literal(0)]);
    Agreement.SmallForm(OperatorLeaf("/"), [Literal(1), Literal(0)]);
    Agreement.SmallForm(OperatorLeaf("-"), [inner]);
    Properties.Division(1, 0);
    Properties.EvalForm(Group(OperatorLeaf("-"), [inner]), OperatorLeaf("-"), [inner]);
    Agreement.LineAsWritten(OperatorLeaf("-"), [inner]);
    Properties.LineEvaluatesAsGroup(OperatorLeaf("-"), [inner]);
  }
}
