/** REPL.c's `get_op`, `get_func` and `eval` exactly as written, on C `long`
    values. Where the C code has no determinate result the model says
    `Unpredictable` rather than inventing one: signed overflow, a remainder by
    zero and an out-of-range double-to-long conversion are undefined
    behaviour, and reading the `num` field of an error value reads a field
    `val_err` never set. `pow`, `fmin` and `fmax` compute in double precision;
    the model follows them only where every double involved is an exact
    integer of magnitude at most 2^53, and says `Unpredictable` elsewhere. */
module AsWritten {
  import opened CLong
  import opened Values
  import opened Syntax
  import Tables
  import Evaluator

  /** What a piece of the C code does: returns a value, or has no result the
      model can fix. */
  datatype Outcome = Returns(v: Value) | Unpredictable

  /** A value the C struct can hold: its number fits a `long`. */
  predicate IsLong(v: Value) {
    v.Num? ==> InLong(v.n)
  }

  predicate Determined(o: Outcome) {
    o.Returns? ==> IsLong(o.v)
  }

  /** Storing the exact result of `long` arithmetic: defined only when it fits. */
  function Long(n: int): (r: Outcome)
    ensures r.Returns? <==> InLong(n)
    ensures r.Returns? ==> r.v == Num(n)
  {
    if InLong(n) then Returns(Num(n)) else Unpredictable
  }

  /** Every integer of magnitude at most 2^53 is exactly a double. */
  const MaxExactDouble: int := 0x20_0000_0000_0000

  predicate ExactDouble(n: int) {
    Abs(n) <= MaxExactDouble
  }

  /** `val_num(pow(x, y))`: the integer power when both arguments and the
      result are exact doubles; for a negative exponent the truncated
      reciprocal, where a zero base gives an infinity whose conversion to
      `long` is undefined. */
  function Pow(x: int, y: int): (r: Outcome)
    ensures r.Returns? ==> r.v == Tables.Power(x, y) && r.v.Num? && ExactDouble(r.v.n)
    ensures ExactDouble(x) && ExactDouble(y) && y >= 0 && ExactDouble(Tables.IntPow(x, y)) ==> r.Returns?
    ensures y < 0 && x == 0 ==> r.Unpredictable?
    ensures ExactDouble(x) && ExactDouble(y) && y < 0 && x != 0 ==> r == Returns(Tables.Power(x, y))
  {
    if !ExactDouble(x) || !ExactDouble(y) then Unpredictable
    else if y >= 0 then
      var p := Tables.IntPow(x, y);
      if ExactDouble(p) then Returns(Num(p)) else Unpredictable
    else if x == 0 then Unpredictable
    else
      var p := Tables.Power(x, y);
      Tables.IntPowMagnitude(x, -y);
      TruncDivOfOneIsSmall(Tables.IntPow(x, -y));
      Returns(p)
  }

  lemma TruncDivOfOneIsSmall(b: int)
    requires b != 0
    ensures Abs(TruncDiv(1, b)) <= 1
  {
    if Abs(TruncDiv(1, b)) > 1 {
      NonzeroMultipleIsLarge(b, TruncDiv(1, b));
    }
  }

  /** `get_op` as written. Error inputs pass through, `x` before `y`. The
      remainder has no zero check, and is undefined whenever the quotient
      overflows (`LONG_MIN % -1`). The exponent test
      `strcmp(operator, "^") == 0 || strcmp(operator, "**")` holds for every
      symbol but `**`, so only `**` reaches `Bad_Op` and every symbol outside
      `+ - * / : %` is taken as exponentiation. On the symbols of the grammar,
      whatever the C code returns is what the corrected table returns. */
  function GetOp(x: Value, op: string, y: Value): (r: Outcome)
    requires IsLong(x) && IsLong(y)
    ensures Determined(r)
    ensures x.Err? ==> r == Returns(x)
    ensures x.Num? && y.Err? ==> r == Returns(y)
    ensures x.Num? && y.Num? && op in {"+", "-", "*"} ==>
              (r.Returns? <==> InLong(Tables.GetOp(x, op, y).n))
    ensures x.Num? && y.Num? && (op == "/" || op == ":") && y.n == 0 ==> r == Returns(Err(DivZero))
    ensures x.Num? && y.Num? && (op == "/" || op == ":") && y.n != 0 ==> r == Long(TruncDiv(x.n, y.n))
    ensures x.Num? && y.Num? && op == "%" && y.n == 0 ==> r.Unpredictable?
    ensures x.Num? && y.Num? && op == "%" && y.n != 0 ==>
              (r.Returns? <==> InLong(TruncDiv(x.n, y.n)))
    ensures x.Num? && y.Num? && op == "%" && y.n != 0 && InLong(TruncDiv(x.n, y.n)) ==>
              r == Returns(Num(TruncRem(x.n, y.n)))
    ensures x.Num? && y.Num? && op == "**" ==> r == Returns(Err(BadOp))
    ensures x.Num? && y.Num? && op !in {"+", "-", "*", "/", ":", "%", "**"} ==> r == Pow(x.n, y.n)
    ensures op in GrammarOperators && r.Returns? ==> r.v == Tables.GetOp(x, op, y)
  {
    if x.Err? then Returns(x)
    else if y.Err? then Returns(y)
    else if op == "+" then Long(x.n + y.n)
    else if op == "-" then Long(x.n - y.n)
    else if op == "*" then Long(x.n * y.n)
    else if op == ":" || op == "/" then
      (if y.n == 0 then Returns(Err(DivZero)) else Long(TruncDiv(x.n, y.n)))
    else if op == "%" then
      (if y.n == 0 || !InLong(TruncDiv(x.n, y.n)) then Unpredictable
       else Returns(Num(TruncRem(x.n, y.n))))
    else if op == "^" || op != "**" then Pow(x.n, y.n)
    else Returns(Err(BadOp))
  }

  /** `get_func` as written: no check for error inputs, so `min` and `max`
      read the unset number of an error; any other name is `Bad_Func` even
      when an input is an error. On `min` and `max`, whatever the C code
      returns is what the corrected table returns. */
  function GetFunc(x: Value, f: string, y: Value): (r: Outcome)
    requires IsLong(x) && IsLong(y)
    ensures Determined(r)
    ensures f != "min" && f != "max" ==> r == Returns(Err(BadFunc))
    ensures (f == "min" || f == "max") && (x.Err? || y.Err?) ==> r.Unpredictable?
    ensures (f == "min" || f == "max") && x.Num? && y.Num? && ExactDouble(x.n) && ExactDouble(y.n) ==>
              r.Returns?
    ensures f in GrammarFunctions && r.Returns? ==> r.v == Tables.GetFunc(x, f, y)
  {
    if f == "min" || f == "max" then
      if x.Num? && y.Num? && ExactDouble(x.n) && ExactDouble(y.n) then
        Returns(Tables.GetFunc(x, f, y))
      else Unpredictable
    else Returns(Err(BadFunc))
  }

  /** The unary-minus branch as written: `val_num(-x.num)`, whatever `x` is. */
  function Negate(x: Outcome): (r: Outcome)
    ensures Determined(r)
    ensures r.Returns? <==> x.Returns? && x.v.Num? && InLong(-x.v.n)
    ensures r.Returns? ==> r.v == Num(-x.v.n)
  {
    match x
    case Returns(Num(n)) => Long(-n)
    case Returns(Err(_)) => Unpredictable
    case Unpredictable => Unpredictable
  }

  /** One step of the operand loop: `x = get_op(x, operator, eval(child))`
      (or `get_func`). The child is evaluated whether or not `x` is already
      an error, so a child without a determined result spoils the step. */
  function Combine(form: Form, acc: Outcome, y: Outcome): (r: Outcome)
    requires Determined(acc) && Determined(y)
    ensures Determined(r)
    ensures r.Returns? ==> acc.Returns? && y.Returns?
  {
    if acc.Returns? && y.Returns? then
      match form
      case Operator(op) => GetOp(acc.v, op, y.v)
      case Function(f) => GetFunc(acc.v, f, y.v)
    else Unpredictable
  }

  /** `eval` as written. Unlike the corrected evaluator, the unary-minus test
      asks whether `children[3]` is a leaf, which a number operand also is. */
  function Eval(t: Node): (r: Outcome)
    requires WellFormed(t)
    ensures Determined(r)
    decreases t, 1
  {
    if IsNumber(t) then Returns(Evaluator.NumberValue(t.contents))
    else if IsOperator(t.children[1]) then
      var x := Eval(t.children[2]);
      if |t.children[3].children| == 0 && t.children[1].contents == "-" then Negate(x)
      else Fold(t, 3, x)
    else if IsFunction(t.children[1]) then
      Fold(t, 3, Eval(t.children[2]))
    else Returns(Err(BadNum))
  }

  /** The operand loop as written, from index `i`. An unpredictable step
      leaves the whole result unpredictable; in an operator form an error
      in the running value is the result unless a later operand is
      unpredictable, for the loop still evaluates every operand. */
  function Fold(t: Node, i: nat, acc: Outcome): (r: Outcome)
    requires WellFormed(t) && HasForm(t)
    requires 3 <= i <= OperandsEnd(t.children, 3)
    requires Determined(acc)
    ensures Determined(r)
    ensures acc.Unpredictable? ==> r.Unpredictable?
    ensures FormOf(t).Operator? && acc.Returns? && acc.v.Err? ==> r == acc || r.Unpredictable?
    decreases t, 0, |t.children| - i
  {
    if IsExpr(t.children[i]) then
      Fold(t, i + 1, Combine(FormOf(t), acc, Eval(t.children[i])))
    else acc
  }
}
