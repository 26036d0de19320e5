/** The tree walk `eval`, with the tables of `Tables` and the unary-minus
    test as evidently intended: a `-` form is a negation exactly when it has
    a single operand. A number node reads its literal; a form evaluates its
    first operand and then folds the symbol's table entry from left to right
    over the remaining operands, which run from index 3 to the first child
    not tagged "expr"; any other node is `BadNum`. */
module Evaluator {
  import opened CLong
  import opened Literals
  import opened Values
  import opened Syntax
  import opened Tables

  /** The number branch: `strtol` reads the literal, and a value outside the
      `long` range (`ERANGE`) is an invalid number. */
  function NumberValue(s: string): (r: Value)
    requires IsDecimalLiteral(s)
    ensures r.Num? <==> InLong(LiteralValue(s))
    ensures r.Num? ==> r.n == LiteralValue(s)
    ensures r.Err? ==> r.kind == BadNum
  {
    var (x, outOfRange) := Strtol(s);
    if !outOfRange then Num(x) else Err(BadNum)
  }

  /** A number printed by `val_print` reads back as the same value. */
  lemma {:induction false} PrintedNumberReadsBack(n: int)
    requires InLong(n)
    ensures NumberValue(Format(Num(n))) == Num(n)
  {
  }

  /** The table entry a form applies to its running value and next operand. */
  function Combine(form: Form, x: Value, y: Value): Value {
    match form
    case Operator(op) => GetOp(x, op, y)
    case Function(f) => GetFunc(x, f, y)
  }

  /** The results a tree of the grammar can have: a number, a division by
      zero, or an out-of-range literal. */
  predicate GrammarResult(v: Value) {
    v.Num? || v.kind == DivZero || v.kind == BadNum
  }

  /** A form is the unary minus when its symbol is the operator `-` and no
      second operand follows the first. */
  predicate IsNegation(t: Node)
    requires HasForm(t) && |t.children| >= 4
  {
    IsOperator(t.children[1]) && t.children[1].contents == "-" && !IsExpr(t.children[3])
  }

  /** `eval`. On a tree the grammar produces, neither an invalid operator nor
      an invalid function can come out. */
  function Eval(t: Node): (r: Value)
    requires WellFormed(t)
    ensures Grammatical(t) ==> GrammarResult(r)
    decreases t, 1
  {
    if IsNumber(t) then NumberValue(t.contents)
    else if HasForm(t) then
      var x := Eval(t.children[2]);
      if IsNegation(t) then
        (if x.Num? then Num(-x.n) else x)
      else Fold(t, 3, x)
    else Err(BadNum)
  }

  /** The operand loop from index `i`: combine the running value `acc` with
      each further operand in order. Once the running value is an error it
      is the result. */
  function Fold(t: Node, i: nat, acc: Value): (r: Value)
    requires WellFormed(t) && HasForm(t)
    requires 3 <= i <= OperandsEnd(t.children, 3)
    ensures acc.Err? ==> r == acc
    ensures Grammatical(t) && GrammarResult(acc) ==> GrammarResult(r)
    decreases t, 0, |t.children| - i
  {
    if IsExpr(t.children[i]) then
      Fold(t, i + 1, Combine(FormOf(t), acc, Eval(t.children[i])))
    else acc
  }
}
