/** The evaluator as written against the corrected one. On every tree the
    grammar produces, except those where the unary-minus test misreads its
    operands, whenever the C code has a determined result it is the
    corrected evaluator's value. */
module Agreement {
  import opened CLong
  import opened Values
  import opened Syntax
  import opened Trees
  import Tables
  import Evaluator
  import AsWritten

  /** At a `-` form, `children[3]` is a leaf exactly when it is not an
      operand, so the as-written test agrees with the intended one. */
  predicate MinusSlotAgrees(t: Node) {
    (HasForm(t) && |t.children| >= 4 && IsOperator(t.children[1]) && t.children[1].contents == "-") ==>
      (|t.children[3].children| == 0 <==> !IsExpr(t.children[3]))
  }

  predicate MinusSlotsAgree(t: Node)
    decreases t
  {
    MinusSlotAgrees(t) && forall c :: c in t.children ==> MinusSlotsAgree(c)
  }

  /** The trees on which the two evaluators are compared. */
  predicate QuirkFree(t: Node) {
    Grammatical(t) && MinusSlotsAgree(t)
  }

  /** Whatever determined result the C code gives on such a tree is the
      corrected evaluator's value. */
  lemma {:induction false} EvalAgrees(t: Node)
    requires WellFormed(t) && QuirkFree(t)
    ensures AsWritten.Eval(t).Returns? ==> AsWritten.Eval(t).v == Evaluator.Eval(t)
    decreases t, 1
  {
    if IsNumber(t) {
    } else if HasForm(t) {
      var c2 := t.children[2];
      assert c2 in t.children;
      EvalAgrees(c2);
      var x := AsWritten.Eval(c2);
      if IsOperator(t.children[1]) && |t.children[3].children| == 0 && t.children[1].contents == "-" {
        assert MinusSlotAgrees(t);
      } else {
        assert MinusSlotAgrees(t);
        if x.Returns? {
          FoldAgrees(t, 3, x.v);
        }
      }
    }
  }

  lemma {:induction false} FoldAgrees(t: Node, i: nat, acc: Value)
    requires WellFormed(t) && HasForm(t) && QuirkFree(t)
    requires 3 <= i <= OperandsEnd(t.children, 3)
    requires AsWritten.IsLong(acc)
    ensures AsWritten.Fold(t, i, AsWritten.Returns(acc)).Returns? ==>
              AsWritten.Fold(t, i, AsWritten.Returns(acc)).v == Evaluator.Fold(t, i, acc)
    decreases t, 0, |t.children| - i
  {
    var cs := t.children;
    if IsExpr(cs[i]) {
      assert cs[i] in cs;
      EvalAgrees(cs[i]);
      var y := AsWritten.Eval(cs[i]);
      var step := AsWritten.Combine(FormOf(t), AsWritten.Returns(acc), y);
      if step.Returns? {
        FoldAgrees(t, i + 1, step.v);
      }
    }
  }

  /** A table step the C code carries out exactly: the symbol is one the
      grammar admits, and on two numbers no `long` overflows, the remainder
      has a nonzero divisor, and `pow` works on exact doubles, with a nonzero
      base under a negative exponent. An error input is passed through. */
  predicate SafeOp(x: Value, op: string, y: Value) {
    && op in GrammarOperators
    && (x.Num? && y.Num? ==>
          if op == "+" then InLong(x.n + y.n)
          else if op == "-" then InLong(x.n - y.n)
          else if op == "*" then InLong(x.n * y.n)
          else if op == "/" then y.n == 0 || InLong(TruncDiv(x.n, y.n))
          else if op == "%" then y.n != 0 && InLong(TruncDiv(x.n, y.n))
          else
            && AsWritten.ExactDouble(x.n) && AsWritten.ExactDouble(y.n)
            && if y.n >= 0 then AsWritten.ExactDouble(Tables.IntPow(x.n, y.n)) else x.n != 0)
  }

  /** A function step the C code carries out exactly: `min` or `max` of two
      numbers that are exact doubles. */
  predicate SafeFunc(x: Value, f: string, y: Value) {
    f in GrammarFunctions && x.Num? && y.Num? && AsWritten.ExactDouble(x.n) && AsWritten.ExactDouble(y.n)
  }

  predicate SafeStep(form: Form, x: Value, y: Value) {
    match form
    case Operator(op) => SafeOp(x, op, y)
    case Function(f) => SafeFunc(x, f, y)
  }

  /** A unary minus the C code carries out exactly: of a number whose
      negation fits a `long`. */
  predicate SafeNegation(x: Value) {
    x.Num? && InLong(-x.n)
  }

  /** Every step of the corrected evaluation of `t` is one the C code carries
      out exactly, and no unary-minus test is misled. */
  predicate Safe(t: Node)
    requires WellFormed(t)
    decreases t, 1
  {
    if IsNumber(t) || !HasForm(t) then true
    else
      var x := Evaluator.Eval(t.children[2]);
      && Safe(t.children[2])
      && MinusSlotAgrees(t)
      && if Evaluator.IsNegation(t) then SafeNegation(x) else SafeFold(t, 3, x)
  }

  predicate SafeFold(t: Node, i: nat, acc: Value)
    requires WellFormed(t) && HasForm(t)
    requires 3 <= i <= OperandsEnd(t.children, 3)
    decreases t, 0, |t.children| - i
  {
    if IsExpr(t.children[i]) then
      var y := Evaluator.Eval(t.children[i]);
      && Safe(t.children[i])
      && SafeStep(FormOf(t), acc, y)
      && SafeFold(t, i + 1, Evaluator.Combine(FormOf(t), acc, y))
    else true
  }

  /** On a safe step the C tables return the corrected value. */
  lemma StepExact(form: Form, x: Value, y: Value)
    requires AsWritten.IsLong(x) && AsWritten.IsLong(y) && SafeStep(form, x, y)
    ensures AsWritten.Combine(form, AsWritten.Returns(x), AsWritten.Returns(y)) ==
              AsWritten.Returns(Evaluator.Combine(form, x, y))
  {
  }

  /** On a safe tree the C `eval` has a determined result, and it is the
      corrected evaluator's value. */
  lemma {:induction false} SafeEvalExact(t: Node)
    requires WellFormed(t) && Safe(t)
    ensures AsWritten.Eval(t) == AsWritten.Returns(Evaluator.Eval(t))
    decreases t, 1
  {
    if !IsNumber(t) && HasForm(t) {
      var c2 := t.children[2];
      SafeEvalExact(c2);
      var x := Evaluator.Eval(c2);
      assert MinusSlotAgrees(t);
      if !Evaluator.IsNegation(t) {
        SafeFoldExact(t, 3, x);
      }
    }
  }

  lemma {:induction false} SafeFoldExact(t: Node, i: nat, acc: Value)
    requires WellFormed(t) && HasForm(t)
    requires 3 <= i <= OperandsEnd(t.children, 3)
    requires AsWritten.IsLong(acc) && SafeFold(t, i, acc)
    ensures AsWritten.Fold(t, i, AsWritten.Returns(acc)) == AsWritten.Returns(Evaluator.Fold(t, i, acc))
    decreases t, 0, |t.children| - i
  {
    if IsExpr(t.children[i]) {
      var y := Evaluator.Eval(t.children[i]);
      SafeEvalExact(t.children[i]);
      StepExact(FormOf(t), acc, y);
      SafeFoldExact(t, i + 1, Evaluator.Combine(FormOf(t), acc, y));
    }
  }

  /** `AsWritten.Eval` of a form with one or two operands. The unary-minus
      branch is taken when the symbol is `-` and `children[3]` is a leaf:
      the closing parenthesis, or a literal second operand. */
  lemma {:induction false} SmallForm(head: Node, args: seq<Node>)
    requires Shaped(Group(head, args), head, args) && (|args| == 1 || |args| == 2)
    ensures var t := Group(head, args);
            var x := AsWritten.Eval(args[0]);
            var leafNext := |args| == 1 || |args[1].children| == 0;
            AsWritten.Eval(t) ==
              if head.tag == OperatorTag && head.contents == "-" && leafNext then AsWritten.Negate(x)
              else if |args| == 1 then x
              else AsWritten.Combine(FormFor(head), x, AsWritten.Eval(args[1]))
  {
    var t := Group(head, args);
    ShapedFacts(t, head, args);
    TagFacts();
    assert t.children[2] == args[0];
    assert t.children[|args| + 2] == Node(CharTag, ")", []);
    if |args| == 2 {
      assert t.children[3] == args[1];
      var x := AsWritten.Eval(args[0]);
      var step := AsWritten.Combine(FormOf(t), x, AsWritten.Eval(args[1]));
      assert AsWritten.Fold(t, 4, step) == step;
    }
  }

  /** Two forms applying the same symbol to the same operands run the same
      operand loop, whatever their delimiters. */
  lemma {:induction false} FoldShapedAlike(s: Node, t: Node, head: Node, args: seq<Node>, i: nat, acc: AsWritten.Outcome)
    requires Shaped(s, head, args) && Shaped(t, head, args)
    requires 3 <= i <= |args| + 2 && AsWritten.Determined(acc)
    requires WellFormed(s) && WellFormed(t) && HasForm(s) && HasForm(t)
    requires OperandsEnd(s.children, 3) == |args| + 2 == OperandsEnd(t.children, 3)
    ensures AsWritten.Fold(s, i, acc) == AsWritten.Fold(t, i, acc)
    decreases |args| + 2 - i
  {
    ShapedFacts(s, head, args);
    ShapedFacts(t, head, args);
    if i < |args| + 2 {
      assert s.children[i] == args[i - 2] == t.children[i];
      var next := AsWritten.Combine(FormFor(head), acc, AsWritten.Eval(args[i - 2]));
      FoldShapedAlike(s, t, head, args, i + 1, next);
    } else {
      assert !IsExpr(s.children[i]) && !IsExpr(t.children[i]);
    }
  }

  /** A whole input line `head args...` between the line anchors evaluates,
      as written, as `(head args...)` does. */
  lemma {:induction false} LineAsWritten(head: Node, args: seq<Node>)
    requires IsSymbolLeaf(head) && |args| >= 1 && AreOperands(args)
    ensures AsWritten.Eval(Line(head, args)) == AsWritten.Eval(Group(head, args))
  {
    var s, t := Line(head, args), Group(head, args);
    ShapedFacts(s, head, args);
    ShapedFacts(t, head, args);
    assert s.children[2] == args[0] == t.children[2];
    assert |s.children[3].children| == |t.children[3].children| by {
      if |args| == 1 {
        assert s.children[3] == Node(RegexTag, "", []);
        assert t.children[3] == Node(CharTag, ")", []);
      } else {
        assert s.children[3] == args[1] == t.children[3];
      }
    }
    FoldShapedAlike(s, t, head, args, 3, AsWritten.Eval(args[0]));
  }

  /** A literal operand, as written: its value, or `BadNum` outside the
      `long` range. */
  lemma AsWrittenLiteral(n: int)
    ensures AsWritten.Eval(Literal(n)) == AsWritten.Returns(if InLong(n) then Num(n) else Err(BadNum))
  {
  }

  /** `(head a b)` on two literals, as written, when the unary-minus test
      is not involved: the table entry for the two values. */
  lemma {:induction false} AsWrittenBinary(head: Node, a: int, b: int)
    requires IsSymbolLeaf(head) && InLong(a) && InLong(b)
    requires !(head.tag == OperatorTag && head.contents == "-")
    ensures AsWritten.Eval(Group(head, [Literal(a), Literal(b)])) ==
              AsWritten.Combine(FormFor(head), AsWritten.Returns(Num(a)), AsWritten.Returns(Num(b)))
  {
    AsWrittenLiteral(a);
    AsWrittenLiteral(b);
    SmallForm(head, [Literal(a), Literal(b)]);
  }

  /** The C code's sum of two literals, defined exactly when it fits a
      `long`. */
  lemma {:induction false} AsWrittenSum(a: int, b: int)
    requires InLong(a) && InLong(b)
    ensures AsWritten.Eval(Group(OperatorLeaf("+"), [Literal(a), Literal(b)])) == AsWritten.Long(a + b)
  {
    var plus := OperatorLeaf("+");
    AsWrittenBinary(plus, a, b);
    assert FormFor(plus) == Operator("+");
    assert AsWritten.GetOp(Num(a), "+", Num(b)) == AsWritten.Long(a + b);
  }

  /** The C code's product of two literals, defined exactly when it fits a
      `long`. */
  lemma {:induction false} AsWrittenProduct(a: int, b: int)
    requires InLong(a) && InLong(b)
    ensures AsWritten.Eval(Group(OperatorLeaf("*"), [Literal(a), Literal(b)])) == AsWritten.Long(a * b)
  {
    var times := OperatorLeaf("*");
    AsWrittenBinary(times, a, b);
    assert FormFor(times) == Operator("*");
    assert AsWritten.GetOp(Num(a), "*", Num(b)) == AsWritten.Long(a * b);
  }

  /** `(+ b)` as written: a form, not a leaf, whose value is `b`. */
  lemma {:induction false} AsWrittenLonePlus(b: int)
    requires InLong(b)
    ensures |Group(OperatorLeaf("+"), [Literal(b)]).children| == 4
    ensures AsWritten.Eval(Group(OperatorLeaf("+"), [Literal(b)])) == AsWritten.Returns(Num(b))
  {
    AsWrittenLiteral(b);
    SmallForm(OperatorLeaf("+"), [Literal(b)]);
  }

  /** `(- a e)` as written, where the operand `e` is a form and so not a
      leaf: one subtraction step. */
  lemma {:induction false} MinusOfForm(a: int, e: Node)
    requires InLong(a) && IsExpr(e) && WellFormed(e) && |e.children| != 0
    ensures AsWritten.Eval(Group(OperatorLeaf("-"), [Literal(a), e])) ==
              AsWritten.Combine(Operator("-"), AsWritten.Returns(Num(a)), AsWritten.Eval(e))
  {
    AsWrittenLiteral(a);
    var minus := OperatorLeaf("-");
    SmallForm(minus, [Literal(a), e]);
    assert FormFor(minus) == Operator("-");
  }

  /** The C code subtracts only when the second operand is not a leaf, as
      in `(- a (+ b))`; with a literal second operand `-` negates. */
  lemma {:induction false} AsWrittenDifference(a: int, b: int)
    requires InLong(a) && InLong(b)
    ensures AsWritten.Eval(Group(OperatorLeaf("-"), [Literal(a), Group(OperatorLeaf("+"), [Literal(b)])]))
              == AsWritten.Long(a - b)
  {
    var inner := Group(OperatorLeaf("+"), [Literal(b)]);
    AsWrittenLonePlus(b);
    MinusOfForm(a, inner);
    assert AsWritten.GetOp(Num(a), "-", Num(b)) == AsWritten.Long(a - b);
  }

  /** The C code's quotient of two literals: `DivZero` for a zero divisor,
      otherwise the truncated quotient, defined exactly when it fits a
      `long`. */
  lemma {:induction false} AsWrittenQuotient(a: int, b: int)
    requires InLong(a) && InLong(b)
    ensures var r := AsWritten.Eval(Group(OperatorLeaf("/"), [Literal(a), Literal(b)]));
            && (b == 0 ==> r == AsWritten.Returns(Err(DivZero)))
            && (b != 0 ==> r == AsWritten.Long(TruncDiv(a, b)))
  {
    AsWrittenBinary(OperatorLeaf("/"), a, b);
  }

  /** The C code's remainder of two literals by a nonzero divisor: defined
      exactly when the quotient fits a `long`, and then the truncated
      remainder. */
  lemma {:induction false} AsWrittenRemainder(a: int, b: int)
    requires InLong(a) && InLong(b)
    ensures var r := AsWritten.Eval(Group(OperatorLeaf("%"), [Literal(a), Literal(b)]));
            && (b != 0 ==> (r.Returns? <==> InLong(TruncDiv(a, b))))
            && (b != 0 && InLong(TruncDiv(a, b)) ==> r == AsWritten.Returns(Num(TruncRem(a, b))))
  {
    AsWrittenBinary(OperatorLeaf("%"), a, b);
  }

  /** The C code's `min` of two exact-double literals is the smaller. */
  lemma {:induction false} AsWrittenMin(a: int, b: int)
    requires InLong(a) && InLong(b) && AsWritten.ExactDouble(a) && AsWritten.ExactDouble(b)
    ensures AsWritten.Eval(Group(FunctionLeaf("min"), [Literal(a), Literal(b)])) ==
              AsWritten.Returns(Num(if a <= b then a else b))
  {
    AsWrittenBinary(FunctionLeaf("min"), a, b);
  }

  /** The C code's `max` of two exact-double literals is the larger. */
  lemma {:induction false} AsWrittenMax(a: int, b: int)
    requires InLong(a) && InLong(b) && AsWritten.ExactDouble(a) && AsWritten.ExactDouble(b)
    ensures AsWritten.Eval(Group(FunctionLeaf("max"), [Literal(a), Literal(b)])) ==
              AsWritten.Returns(Num(if a >= b then a else b))
  {
    AsWrittenBinary(FunctionLeaf("max"), a, b);
  }

  /** As written, any function name but `min` and `max` is `BadFunc`. */
  lemma {:induction false} AsWrittenUnknownFunction(a: int, b: int, f: string)
    requires InLong(a) && InLong(b) && f != "min" && f != "max"
    ensures AsWritten.Eval(Group(FunctionLeaf(f), [Literal(a), Literal(b)])) == AsWritten.Returns(Err(BadFunc))
  {
    AsWrittenBinary(FunctionLeaf(f), a, b);
  }
}
