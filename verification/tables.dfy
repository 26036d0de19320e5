/** The operator and function tables (`get_op`, `get_func`) as their authors
    evidently meant them, on exact integers: both check for error inputs
    first, division and remainder by zero give `DivZero`, and an unknown
    symbol gives `BadOp` or `BadFunc`. The module `AsWritten` holds the
    tables exactly as REPL.c writes them. */
module Tables {
  import opened CLong
  import opened Values

  /** `x` to the natural power `k`. */
  function IntPow(x: int, k: nat): int
    decreases k
  {
    if k == 0 then 1 else x * IntPow(x, k - 1)
  }

  /** A power of a nonzero base is not zero, and a positive power of a base
      of magnitude two or more has magnitude two or more. */
  lemma {:induction false} IntPowMagnitude(x: int, k: nat)
    requires x != 0
    ensures IntPow(x, k) != 0
    ensures Abs(x) >= 2 && k >= 1 ==> Abs(IntPow(x, k)) >= 2
    decreases k
  {
    if k > 0 {
      IntPowMagnitude(x, k - 1);
      var p := IntPow(x, k - 1);
      AbsProduct(x, p);
      if Abs(x) >= 2 {
        MonotoneProduct(Abs(x), Abs(p));
      }
    }
  }

  lemma AbsProduct(a: int, b: int)
    ensures Abs(a * b) == Abs(a) * Abs(b)
    ensures a != 0 && b != 0 ==> a * b != 0
  {
  }

  lemma MonotoneProduct(a: nat, b: nat)
    requires a >= 2 && b >= 1
    ensures a * b >= 2
  {
  }

  /** Powers of one and of minus one. */
  lemma {:induction false} IntPowUnit(x: int, k: nat)
    requires x == 1 || x == -1
    ensures IntPow(x, k) == if x == 1 || k % 2 == 0 then 1 else -1
    decreases k
  {
    if k > 0 {
      IntPowUnit(x, k - 1);
    }
  }

  /** `x ^ y` with the result truncated to an integer: the integer power for
      a natural exponent; for a negative exponent the truncated quotient of
      one by `x` to the opposite power, which is a division by zero when `x`
      is zero. */
  function Power(x: int, y: int): (r: Value)
    ensures y >= 0 ==> r == Num(IntPow(x, y))
    ensures y < 0 && x == 0 ==> r == Err(DivZero)
    ensures y < 0 && x != 0 ==> IntPow(x, -y) != 0 && r == Num(TruncDiv(1, IntPow(x, -y)))
  {
    if y >= 0 then Num(IntPow(x, y))
    else if x == 0 then Err(DivZero)
    else
      var p := IntPow(x, -y);
      IntPowMagnitude(x, -y);
      if x == 1 || x == -1 then
        IntPowUnit(x, -y);
        assert IsTruncQuotient(1, p, p);
        TruncQuotientUnique(1, p, p);
        Num(if x == 1 || y % 2 == 0 then 1 else -1)
      else
        assert IsTruncQuotient(1, p, 0);
        TruncQuotientUnique(1, p, 0);
        Num(0)
  }

  /** Every symbol with an entry in the table; `:` spells division and `**`
      exponentiation. */
  const TableOperators: set<string> := {"+", "-", "*", "/", ":", "%", "^", "**"}

  /** `get_op`: an error input is the result, the first operand's before the
      second's; otherwise the symbol's arithmetic on the two numbers. */
  function GetOp(x: Value, op: string, y: Value): (r: Value)
    ensures x.Err? ==> r == x
    ensures x.Num? && y.Err? ==> r == y
    ensures x.Num? && y.Num? && op == "+" ==> r == Num(x.n + y.n)
    ensures x.Num? && y.Num? && op == "-" ==> r == Num(x.n - y.n)
    ensures x.Num? && y.Num? && op == "*" ==> r == Num(x.n * y.n)
    ensures x.Num? && y.Num? && (op == "/" || op == ":" || op == "%") && y.n == 0 ==> r == Err(DivZero)
    ensures x.Num? && y.Num? && (op == "/" || op == ":") && y.n != 0 ==>
              r.Num? && IsTruncQuotient(x.n, y.n, r.n)
    ensures x.Num? && y.Num? && op == "%" && y.n != 0 ==> r.Num? && IsTruncRemainder(x.n, y.n, r.n)
    ensures x.Num? && y.Num? && (op == "^" || op == "**") ==> r == Power(x.n, y.n)
    ensures x.Num? && y.Num? && op !in TableOperators ==> r == Err(BadOp)
  {
    if x.Err? then x
    else if y.Err? then y
    else if op == "+" then Num(x.n + y.n)
    else if op == "-" then Num(x.n - y.n)
    else if op == "*" then Num(x.n * y.n)
    else if op == ":" || op == "/" then
      (if y.n == 0 then Err(DivZero) else Num(TruncDiv(x.n, y.n)))
    else if op == "%" then
      (if y.n == 0 then Err(DivZero) else Num(TruncRem(x.n, y.n)))
    else if op == "^" || op == "**" then Power(x.n, y.n)
    else Err(BadOp)
  }

  /** `get_func`: an error input is the result, the first operand's before
      the second's; otherwise `min` and `max` pick the smaller and the larger
      number, and any other name is `BadFunc`. */
  function GetFunc(x: Value, f: string, y: Value): (r: Value)
    ensures x.Err? ==> r == x
    ensures x.Num? && y.Err? ==> r == y
    ensures x.Num? && y.Num? && f == "min" ==>
              r.Num? && r.n <= x.n && r.n <= y.n && (r.n == x.n || r.n == y.n)
    ensures x.Num? && y.Num? && f == "max" ==>
              r.Num? && r.n >= x.n && r.n >= y.n && (r.n == x.n || r.n == y.n)
    ensures x.Num? && y.Num? && f != "min" && f != "max" ==> r == Err(BadFunc)
  {
    if x.Err? then x
    else if y.Err? then y
    else if f == "min" then Num(if x.n <= y.n then x.n else y.n)
    else if f == "max" then Num(if x.n >= y.n then x.n else y.n)
    else Err(BadFunc)
  }
}
