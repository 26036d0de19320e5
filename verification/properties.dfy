/** What the corrected evaluator computes on the trees the parser builds:
    a form's value is the left fold of its operands (the one-operand `-`
    being a negation), the first error met is the result, and the
    arithmetic, division and function laws hold for every operand. */
module Properties {
  import opened CLong
  import opened Values
  import opened Syntax
  import opened Trees
  import opened Tables
  import opened Evaluator
  import AsWritten

  /** The values of the operands `args[i..]`, in order. */
  function EvalFrom(args: seq<Node>, i: nat): (vs: seq<Value>)
    requires AreOperands(args) && i <= |args|
    ensures |vs| == |args| - i
    decreases |args| - i
  {
    if i == |args| then [] else [Eval(args[i])] + EvalFrom(args, i + 1)
  }

  /** The reference left fold: combine `acc` with each value in order. */
  function LeftFold(form: Form, acc: Value, vs: seq<Value>): Value
    decreases |vs|
  {
    if |vs| == 0 then acc else LeftFold(form, Combine(form, acc, vs[0]), vs[1..])
  }

  /** The operand loop of a form from index `i` is the left fold over the
      values of the operands from `args[i - 2]` on. */
  lemma {:induction false} FoldIsLeftFold(t: Node, head: Node, args: seq<Node>, i: nat, acc: Value)
    requires Shaped(t, head, args) && WellFormed(t) && HasForm(t)
    requires OperandsEnd(t.children, 3) == |args| + 2
    requires 3 <= i <= |args| + 2
    ensures Fold(t, i, acc) == LeftFold(FormOf(t), acc, EvalFrom(args, i - 2))
    decreases |args| + 2 - i
  {
    if i < |args| + 2 {
      assert args[i - 2] == t.children[i];
      var vs := EvalFrom(args, i - 2);
      assert vs[1..] == EvalFrom(args, i - 1);
      FoldIsLeftFold(t, head, args, i + 1, Combine(FormOf(t), acc, Eval(t.children[i])));
    }
  }

  /** `eval` of a form: with one operand, `-` negates it; otherwise the
      symbol is folded from left to right over the operands' values,
      starting from the first. */
  lemma {:induction false} EvalForm(t: Node, head: Node, args: seq<Node>)
    requires Shaped(t, head, args) && WellFormed(t)
    ensures head.tag == OperatorTag && head.contents == "-" && |args| == 1 ==>
              Eval(t) == (var x := Eval(args[0]); if x.Num? then Num(-x.n) else x)
    ensures !(head.tag == OperatorTag && head.contents == "-" && |args| == 1) ==>
              Eval(t) == LeftFold(FormFor(head), Eval(args[0]), EvalFrom(args, 1))
  {
    ShapedFacts(t, head, args);
    TagFacts();
    assert t.children[2] == args[0];
    if |args| >= 2 {
      assert t.children[3] == args[1];
    }
    FoldIsLeftFold(t, head, args, 3, Eval(args[0]));
  }

  /** Once the running value is an error the fold keeps it. */
  lemma {:induction false} ErrorAbsorbs(form: Form, e: ErrKind, vs: seq<Value>)
    ensures LeftFold(form, Err(e), vs) == Err(e)
    decreases |vs|
  {
    if |vs| > 0 {
      ErrorAbsorbs(form, e, vs[1..]);
    }
  }

  /** The first error the fold meets is its result: if the fold is still a
      number before operand `k` and operand `k` is an error, that error is
      the result, whatever follows. */
  lemma {:induction false} FirstErrorWins(form: Form, acc: Value, vs: seq<Value>, k: nat)
    requires k < |vs| && vs[k].Err?
    requires LeftFold(form, acc, vs[..k]).Num?
    ensures LeftFold(form, acc, vs) == vs[k]
    decreases k
  {
    if k == 0 {
      ErrorAbsorbs(form, vs[0].kind, vs[1..]);
    } else {
      assert vs[..k][1..] == vs[1..][..k - 1];
      FirstErrorWins(form, Combine(form, acc, vs[0]), vs[1..], k - 1);
    }
  }

  /** A literal operand is its value, or `BadNum` outside the `long` range. */
  lemma EvalLiteral(n: int)
    ensures Eval(Literal(n)) == if InLong(n) then Num(n) else Err(BadNum)
  {
  }

  /** `(op a b)` on two literals. */
  lemma {:induction false} EvalBinary(head: Node, a: int, b: int)
    requires IsSymbolLeaf(head) && InLong(a) && InLong(b)
    ensures Eval(Group(head, [Literal(a), Literal(b)])) ==
              if head.tag == OperatorTag then GetOp(Num(a), head.contents, Num(b))
              else GetFunc(Num(a), head.contents, Num(b))
  {
    var args := [Literal(a), Literal(b)];
    EvalLiteral(a);
    EvalLiteral(b);
    var t := Group(head, args);
    EvalForm(t, head, args);
    assert EvalFrom(args, 1) == [Num(b)];
  }

  /** Sum, difference and product of two literals, for all operands; `-`
      with two operands is subtraction, not negation. */
  lemma Arithmetic(a: int, b: int)
    requires InLong(a) && InLong(b)
    ensures Eval(Group(OperatorLeaf("+"), [Literal(a), Literal(b)])) == Num(a + b)
    ensures Eval(Group(OperatorLeaf("-"), [Literal(a), Literal(b)])) == Num(a - b)
    ensures Eval(Group(OperatorLeaf("*"), [Literal(a), Literal(b)])) == Num(a * b)
  {
    EvalBinary(OperatorLeaf("+"), a, b);
    EvalBinary(OperatorLeaf("-"), a, b);
    EvalBinary(OperatorLeaf("*"), a, b);
  }

  /** Division and remainder: a zero divisor is `DivZero`; otherwise the
      quotient truncates toward zero and the remainder takes the dividend's
      sign. */
  lemma Division(a: int, b: int)
    requires InLong(a) && InLong(b)
    ensures var q := Eval(Group(OperatorLeaf("/"), [Literal(a), Literal(b)]));
            && (b == 0 ==> q == Err(DivZero))
            && (b != 0 ==> q == Num(TruncDiv(a, b)))
    ensures var r := Eval(Group(OperatorLeaf("%"), [Literal(a), Literal(b)]));
            && (b == 0 ==> r == Err(DivZero))
            && (b != 0 ==> r == Num(TruncRem(a, b)))
  {
    EvalBinary(OperatorLeaf("/"), a, b);
    EvalBinary(OperatorLeaf("%"), a, b);
    if b != 0 {
      TruncQuotientUnique(a, b, Eval(Group(OperatorLeaf("/"), [Literal(a), Literal(b)])).n);
      TruncRemainderUnique(a, b, Eval(Group(OperatorLeaf("%"), [Literal(a), Literal(b)])).n);
    }
  }

  /** `(/ 7 2)` is 3, `(/ -7 2)` is -3 and `(% 7 2)` is 1. */
  lemma DivisionExamples()
    ensures Eval(Group(OperatorLeaf("/"), [Literal(7), Literal(2)])) == Num(3)
    ensures Eval(Group(OperatorLeaf("/"), [Literal(-7), Literal(2)])) == Num(-3)
    ensures Eval(Group(OperatorLeaf("%"), [Literal(7), Literal(2)])) == Num(1)
  {
    Division(7, 2);
    Division(-7, 2);
    TruncationExamples();
  }

  /** `min` and `max` of two literals; any other function name is `BadFunc`. */
  lemma Functions(a: int, b: int, f: string)
    requires InLong(a) && InLong(b)
    ensures Eval(Group(FunctionLeaf("min"), [Literal(a), Literal(b)])) == Num(if a <= b then a else b)
    ensures Eval(Group(FunctionLeaf("max"), [Literal(a), Literal(b)])) == Num(if a >= b then a else b)
    ensures f != "min" && f != "max" ==> Eval(Group(FunctionLeaf(f), [Literal(a), Literal(b)])) == Err(BadFunc)
  {
    EvalBinary(FunctionLeaf("min"), a, b);
    EvalBinary(FunctionLeaf("max"), a, b);
    EvalBinary(FunctionLeaf(f), a, b);
  }

  /** `(- a)` negates its only operand. */
  lemma UnaryMinus(a: int)
    requires InLong(a)
    ensures Eval(Group(OperatorLeaf("-"), [Literal(a)])) == Num(-a)
  {
    EvalLiteral(a);
    EvalForm(Group(OperatorLeaf("-"), [Literal(a)]), OperatorLeaf("-"), [Literal(a)]);
  }

  /** `(- 10 1 2)` is `(10 - 1) - 2`: the fold runs from the left. */
  lemma LeftToRight()
    ensures Eval(Group(OperatorLeaf("-"), [Literal(10), Literal(1), Literal(2)])) == Num(7)
  {
    var args := [Literal(10), Literal(1), Literal(2)];
    EvalLiteral(10);
    EvalLiteral(1);
    EvalLiteral(2);
    EvalForm(Group(OperatorLeaf("-"), args), OperatorLeaf("-"), args);
    assert EvalFrom(args, 2) == [Num(2)];
    assert EvalFrom(args, 1) == [Num(1), Num(2)];
  }

  /** `(+ (/ 1 0) 5)`: the division by zero in the first operand is the result. */
  lemma NestedErrorPropagates()
    ensures Eval(Group(OperatorLeaf("+"), [Group(OperatorLeaf("/"), [Literal(1), Literal(0)]), Literal(5)]))
            == Err(DivZero)
  {
    var inner := Group(OperatorLeaf("/"), [Literal(1), Literal(0)]);
    Division(1, 0);
    assert Eval(inner) == Err(DivZero);
    var args := [inner, Literal(5)];
    EvalLiteral(5);
    var t := Group(OperatorLeaf("+"), args);
    EvalForm(t, OperatorLeaf("+"), args);
    assert FormOf(t) == Operator("+");
    ErrorAbsorbs(FormOf(t), DivZero, EvalFrom(args, 1));
  }

  /** The value a line of input gets does not depend on the anchors around
      it: `head args...` evaluates as `(head args...)` does. */
  lemma {:induction false} LineEvaluatesAsGroup(head: Node, args: seq<Node>)
    requires IsSymbolLeaf(head) && |args| >= 1 && AreOperands(args)
    ensures Eval(Line(head, args)) == Eval(Group(head, args))
  {
    ShapedFacts(Line(head, args), head, args);
    ShapedFacts(Group(head, args), head, args);
    EvalForm(Line(head, args), head, args);
    EvalForm(Group(head, args), head, args);
  }

  /** A node that is neither a number nor a form, because its second child
      is neither an operator nor a function, is an invalid number, both as
      written and as corrected. */
  lemma NeitherSymbolIsBadNum(t: Node)
    requires WellFormed(t) && !IsNumber(t)
    requires !IsOperator(t.children[1]) && !IsFunction(t.children[1])
    ensures Eval(t) == Err(BadNum)
    ensures AsWritten.Eval(t) == AsWritten.Returns(Err(BadNum))
  {
  }
}
