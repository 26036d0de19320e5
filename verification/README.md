# PolishNotationCalc evaluator, modelled in Dafny

PolishNotationCalc is a read-eval-print loop for prefix arithmetic. A line
is a symbol followed by its operands, and nested forms are parenthesised,
as in `+ 1 (* 2 3)` or `max 3 7`. The mpc parser-combinator
library turns each line into a syntax tree. Each node carries a tag
(`"expr|number|regex"`, `"operator|char"`, `"expr|>"`, …), its text and its
children. `eval` in `REPL.c` walks that tree and produces a `Value`: a `long`
number or one of four errors. `val_print` prints that value.

This project models that evaluator in two layers.

- **As written** (`AsWritten`). This layer is `get_op`, `get_func` and `eval` read
  literally, on C `long` values. A result is `Returns(v)` or `Unpredictable`.
  `Unpredictable` covers three cases: undefined behaviour (signed overflow, a
  remainder by zero, an out-of-range double-to-`long` conversion); a read of
  the `num` field of an error value, which `val_err` never sets; and
  double-precision arithmetic beyond 2^53, which the model does not follow.
- **Corrected** (`Tables`, `Evaluator`). This layer is the evaluator as its
  authors evidently meant it, on exact integers:
  - a `-` form negates only when it has exactly one operand;
  - only `^` and `**` are powers;
  - a remainder by zero is a division by zero;
  - 0 to a negative power is a division by zero;
  - an error passed to `min` or `max` propagates;
  - an error passed to unary minus propagates.

  `Properties` proves this layer's laws on trees of the parser's shape:
  - a form is the left fold of its operands;
  - the first error wins;
  - `+ - *`, truncating `/` and `%`, `min`/`max` and unary minus behave as
    stated in `Properties`.

`Agreement` connects the two layers in both directions.

- `Agreement.EvalAgrees` covers every tree the grammar produces on which the
  unary-minus test is not misled. On such a tree, whenever the C code has a
  determined result, that result is the corrected value.
- `Agreement.SafeEvalExact` covers every safe tree. A tree is safe when:
  - every symbol is one the grammar admits;
  - no unary-minus test is misled;
  - no step overflows a `long`;
  - no remainder is taken by zero;
  - no power has base 0 and a negative exponent;
  - no error is passed to `min`, `max` or unary minus;
  - no step leaves the exact doubles.

  On a safe tree the C code has a determined result, and it is the corrected
  value.

`Findings` shows each departure on a concrete input.

Modules, in dependency order:

- `CLong`: the `long` range, and C's truncating `/` and `%`. Each is defined
  from magnitudes and pinned down by a relational specification, with
  uniqueness proofs.
- `Literals`: decimal literals, `%li` printing (`ShowInt`) and `strtol` (with
  clamping and `ERANGE`).
- `Values`: `Value`, `ErrKind` and the `val_print` text.
- `Syntax`: the mpc tree, `strstr` tag tests, the operand loop's stopping
  index, well-formedness, and `num_of_nodes`.
- `Tables`: the corrected `get_op`/`get_func`.
- `Evaluator`: the corrected `eval`.
- `AsWritten`: the source read literally.
- `Agreement`: agreement between the two layers.
- `Trees`: builders for trees of the parser's shape.
- `Properties`: the evaluator's laws.
- `Findings`: the source's departures from its evident intent.

Points of the program the model makes explicit:

- An error does not stop the operand loop. `REPL.c:130-131` evaluates every
  operand and only passes the error value on. So a later operand with
  undefined behaviour still matters: `AsWritten.Fold` makes the whole result
  `Unpredictable`.
- The line `- 5 3` is -5, not 2: the unary-minus test at `REPL.c:125` also holds
  for a literal second operand; see Findings.
- `%` has no zero-divisor guard at `REPL.c:99`, unlike `/` at `REPL.c:97`;
  see Findings.
- `get_op` accepts `:` as an alias of `/` (`REPL.c:96`). The grammar's
  operator rule (`REPL.c:164`) does not include it, so `:` never reaches the
  evaluator from the parser. The tables still model it.

## Model

A form written `(head args…)` below is a nested form, which is how the
parser builds an operand. A typed line has no parentheses. By
`Agreement.LineAsWritten` and `Properties.LineEvaluatesAsGroup`, the line
`head args…` evaluates as `(head args…)` does in both layers.

| member | source | states |
|---|---|---|
| CLong.TruncDiv | REPL.c:97 | C's `x.num / y.num`: the quotient truncated toward zero, i.e. `a == b*q + r` with `abs(r) < abs(b)` and `r` having the sign of `a` (or zero) |
| CLong.TruncRem | REPL.c:99 | C's `x.num % y.num`: the remainder has the dividend's sign and magnitude below the divisor's |
| CLong.TruncQuotientUnique | REPL.c:97 | any integer meeting the truncating-quotient specification is `TruncDiv(a, b)` |
| CLong.TruncRemainderUnique | REPL.c:99 | any integer meeting the truncating-remainder specification is `TruncRem(a, b)` |
| CLong.TruncationExamples | REPL.c:96-99 | 7/2 = 3, -7/2 = -3, 7/-2 = -3, -7/-2 = 3 and the matching remainders 1, -1, 1, -1 |
| Literals.ShowInt | REPL.c:34 | `%li` prints the canonical decimal: a literal of the number rule with no leading zero and no `-0`, which reads back as the same integer, starting with `-` exactly when the number is negative |
| Literals.ShowIntOfCanonical | REPL.c:34 | every canonical literal is what `%li` prints for its value, so the printed text is the only canonical literal for a number |
| Literals.Strtol | REPL.c:115-116 | `strtol` on a decimal literal: the literal's value when it fits a `long`; otherwise `LONG_MIN`/`LONG_MAX` by sign, with `ERANGE` set exactly when it does not fit |
| Values.Format | REPL.c:32-44 | a number prints as its canonical decimal, which reads back as that number; the text starts with `E` exactly when the value is an error |
| Values.FormatInjective | REPL.c:32-44 | distinct values print as distinct text: the four error messages differ from each other and from every number |
| Syntax.Strstr | REPL.c:114 | `strstr` returns the first index at which the block occurs, or -1 when there is none |
| Syntax.StrstrFinds | REPL.c:114 | a tag test is true exactly when the block occurs in the tag |
| Syntax.OperandsEnd | REPL.c:129-133 | the loop `while (strstr(t->children[i]->tag, "expr"))` stops at the first index whose node is not tagged "expr", and every index before it is an operand |
| Syntax.NumOfNodes | REPL.c:75-87 | `num_of_nodes` returns the number of nodes in the tree: 1 for a leaf, 1 plus the children's counts otherwise |
| Syntax.SizeBounds | REPL.c:75-87 | the count is at least 1 plus the number of children, and larger than the count of each child |
| Tables.Power | REPL.c:100 | the intended power: the integer power for a non-negative exponent; for a negative exponent the truncated reciprocal, or a division by zero when the base is 0 |
| Tables.GetOp | REPL.c:89-103 | error inputs pass through (`x` before `y`); `+ - *` are the sum, difference and product; a zero divisor of `/`, `:` or `%` is `DivZero`, otherwise a truncating quotient or remainder; `^` and `**` are the power; any other symbol is `BadOp` |
| Tables.GetFunc | REPL.c:105-110 | error inputs pass through; `min` is an input no larger than the other, `max` one no smaller; any other name is `BadFunc` |
| Evaluator.NumberValue | REPL.c:114-117 | a number node is `Num` of its literal exactly when the literal fits a `long`, otherwise `BadNum` |
| Evaluator.PrintedNumberReadsBack | REPL.c:114-117 | a `long` printed by `val_print` and read back by the number branch is the same value |
| Evaluator.Eval | REPL.c:113-151 | on a tree of the grammar, the result is a number, `DivZero` or `BadNum`, never `BadOp` or `BadFunc` |
| Evaluator.Fold | REPL.c:129-135 | once the running value is an error it is the fold's result; the fold keeps grammar results |
| AsWritten.Pow | REPL.c:100 | whenever `val_num(pow(x, y))` is determined it is the intended power; it is determined for exact-double inputs with a non-negative exponent and an exact result, and for exact-double inputs with a negative exponent and a nonzero base (the truncated reciprocal); `pow(0, negative)` is undefined |
| AsWritten.GetOp | REPL.c:89-103 | error inputs pass through; `+ - *` are defined exactly when no overflow occurs; `/` and `:` by 0 are `DivZero`, otherwise the truncated quotient, defined exactly when it fits a `long`; `%` by 0 is undefined, otherwise the truncated remainder, defined exactly when the quotient fits; `**` is `BadOp` and every other unlisted symbol is the power; on the grammar's symbols a determined result is the corrected table's |
| AsWritten.GetFunc | REPL.c:105-110 | any name but `min`/`max` is `BadFunc`, even for error inputs; `min`/`max` of an error reads an unset field; on exact doubles the result is determined and equals the corrected `min`/`max` |
| AsWritten.Negate | REPL.c:125-127 | `val_num(-x.num)` is determined exactly when `x` is a number whose negation fits a `long`, and is then its negation |
| AsWritten.Combine | REPL.c:131 | a loop step has a determined result only when the running value and the evaluated operand both do |
| AsWritten.Fold | REPL.c:129-135 | the operand loop keeps an error in the running value unless a later operand's evaluation is undefined; an undefined running value stays undefined |
| AsWritten.Eval | REPL.c:113-151 | a number `eval` returns always fits a `long` |
| Agreement.EvalAgrees | REPL.c:113-151 | on every grammar tree whose unary-minus tests are not misled, a determined result of the C `eval` equals the corrected evaluator's value |
| Agreement.FoldAgrees | REPL.c:129-147 | the same for the operand loops of operator and function forms |
| Agreement.StepExact | REPL.c:89-110 | on a safe step (grammar symbol, no overflow, nonzero remainder divisor, exact doubles, no error into `min`/`max`) the C tables return the corrected value |
| Agreement.SafeEvalExact | REPL.c:113-151 | on a safe tree the C `eval` has a determined result, and it is the corrected evaluator's value |
| Agreement.SafeFoldExact | REPL.c:129-147 | the same for the operand loops |
| Agreement.SmallForm | REPL.c:120-148 | the C `eval` of a form with one or two operands: negation of the first operand when the symbol is `-` and `children[3]` is a leaf; otherwise, with one operand, that operand's value, and with two, one table step on the two operands' values |
| Agreement.LineAsWritten | REPL.c:166-167 | as written, a whole input line `head args…` between the line anchors evaluates as `(head args…)` does |
| Agreement.AsWrittenLiteral | REPL.c:114-117 | as written, a literal operand is its value, or `BadNum` outside the `long` range |
| Agreement.AsWrittenBinary | REPL.c:120-148 | as written, a two-literal form other than `-` is the table entry for the two values |
| Agreement.AsWrittenSum | REPL.c:93 | as written, `(+ a b)` is the sum, defined exactly when it fits a `long` |
| Agreement.AsWrittenProduct | REPL.c:95 | as written, `(* a b)` is the product, defined exactly when it fits a `long` |
| Agreement.AsWrittenDifference | REPL.c:94 | as written, `(- a (+ b))` is `a - b`, defined exactly when it fits: subtraction happens only when the second operand is not a leaf |
| Agreement.AsWrittenQuotient | REPL.c:96-97 | as written, `(/ a 0)` is `DivZero`, and `(/ a b)` is the truncated quotient, defined exactly when it fits a `long` |
| Agreement.AsWrittenRemainder | REPL.c:99 | as written, `(% a b)` with `b != 0` is defined exactly when the truncated quotient fits a `long`, and is then the truncated remainder |
| Agreement.AsWrittenMin | REPL.c:106 | as written, `(min a b)` on exact-double literals is the smaller |
| Agreement.AsWrittenMax | REPL.c:107 | as written, `(max a b)` on exact-double literals is the larger |
| Agreement.AsWrittenUnknownFunction | REPL.c:109 | as written, any other function name is `BadFunc` |
| Properties.FoldIsLeftFold | REPL.c:129-135 | the operand loop from index `i` is the reference left fold over the values of the remaining operands |
| Properties.EvalForm | REPL.c:120-148 | a one-operand `-` form negates a number and passes an error through; every other form is the left fold of its symbol over its operands' values, starting from the first |
| Properties.ErrorAbsorbs | REPL.c:90-91 | an error in the running value survives every remaining step |
| Properties.FirstErrorWins | REPL.c:89-91 | if the fold is still a number before operand `k` and operand `k` is an error, that error is the result, whatever follows |
| Properties.EvalLiteral | REPL.c:114-117 | a literal operand evaluates to its value, or to `BadNum` outside the `long` range |
| Properties.EvalBinary | REPL.c:120-148 | a two-literal form is the operator table (or function table) applied to the two values |
| Properties.Arithmetic | REPL.c:93-95 | `(+ a b)`, `(- a b)`, `(* a b)` are `a + b`, `a - b`, `a * b` for all literals |
| Properties.Division | REPL.c:96-99 | `(/ a 0)` and `(% a 0)` are `DivZero`; otherwise the quotient truncates toward zero and the remainder takes the dividend's sign |
| Properties.DivisionExamples | REPL.c:96-99 | `(/ 7 2)` is 3, `(/ -7 2)` is -3 and `(% 7 2)` is 1 |
| Properties.Functions | REPL.c:105-110 | `(min a b)` is the smaller and `(max a b)` the larger literal; any other function name is `BadFunc` |
| Properties.UnaryMinus | REPL.c:125-127 | `(- a)` is `-a` |
| Properties.LeftToRight | REPL.c:129-135 | `(- 10 1 2)` is 7: the fold runs from the left |
| Properties.NestedErrorPropagates | REPL.c:89-91 | `(+ (/ 1 0) 5)` is `DivZero` |
| Properties.LineEvaluatesAsGroup | REPL.c:166-167 | a whole input line `head args…` between the line anchors evaluates as `(head args…)` does |
| Properties.NeitherSymbolIsBadNum | REPL.c:150 | a non-number node whose second child is neither an operator nor a function is `BadNum`, as written and as corrected |
| Findings.MinusIgnoresLaterOperands | REPL.c:125-127 | as written, a `-` form whose second operand is a literal is the negation of its first operand; later operands are never evaluated |
| Findings.MinusWithLiteralSecondOperand | REPL.c:125 | `(- a b)` on literals is `-a` as written and `a - b` as corrected |
| Findings.MinusFiveThree | REPL.c:125 | the line `- 5 3` and the form `(- 5 3)` are -5 as written and 2 as corrected |
| Findings.MinusTenOneTwo | REPL.c:125-135 | the line `- 10 1 2` and the form `(- 10 1 2)` are -10 as written and 7 as corrected |
| Findings.ExponentTest | REPL.c:100-102 | as written `@` computes 2^3 = 8 and `**` is `BadOp`; as corrected `@` is `BadOp` and `**` is 8 |
| Findings.RemainderByZero | REPL.c:99 | the line `% a 0` and the form `(% a 0)` are undefined as written and `DivZero` as corrected |
| Findings.ZeroToNegativePower | REPL.c:100 | the line `^ 0 -1` is undefined as written (`pow(0, -1)` is an infinity converted to `long`) and `DivZero` as corrected |
| Findings.FunctionOfError | REPL.c:105-107 | the line `min (/ 1 0) 1` is undefined as written and `DivZero` as corrected |
| Findings.NegationOfError | REPL.c:125-126 | the line `- (/ 1 0)` is undefined as written and `DivZero` as corrected |

## Left out

- `main`, the prompt loop, the `exit` check and the start-up banner (`REPL.c:154-202`): interactive I/O.
- The `_WIN32` `readline`/`add_history` replacement and its 2048-byte static buffer (`REPL.c:52-72`): console I/O and platform code.
- The mpc grammar and parser (`REPL.c:155-169`, `REPL.c:187-193`). The tree is an input. `Syntax.WellFormed` states what `eval` needs of it, `Syntax.Grammatical` states which symbols the grammar admits, and `Trees` builds trees of the shape mpc produces. The claim that mpc builds exactly these trees is taken from the grammar text, not proved.
- `mpc_ast_delete`, `free` and the other memory management: nothing observable about values.
- `printf`/`putchar` in `val_print`/`val_println` (`REPL.c:32-48`): `Values.Format` gives the text printed, without the trailing newline.
- AsWritten.Pow: follows C's `pow` only where both arguments are integers of magnitude at most 2^53 and, for a non-negative exponent, the result is too; for a negative exponent and a nonzero base it gives the truncated reciprocal (0, 1 or -1), which is what converting `pow`'s result 1/x^k to `long` yields. Everywhere else it says `Unpredictable`; libm rounding beyond 2^53 is not modelled.
- AsWritten.GetFunc: follows `fmin`/`fmax` only on inputs of magnitude at most 2^53, where the conversion to `double` is exact. The rounding of larger `long` values is not modelled.
- AsWritten.Eval: its own contract states only that a determined result fits a `long`. Its meaning is given by `Agreement.EvalAgrees` and the `Findings` lemmas, not by its `ensures`.
- Tables.GetOp: the corrected table works on exact integers. It does not model `long` overflow of `+`, `-`, `*`, the power, `LONG_MIN / -1` or `LONG_MIN % -1`; the as-written layer does.
- Evaluator.Eval: the corrected unary minus negates exactly, so the line `- -9223372036854775808` gives 2^63, which no `long` holds; the as-written `AsWritten.Negate` makes this case `Unpredictable`.
- Syntax.NumOfNodes: returns the exact count. The C `int` total would overflow on trees of more than 2^31 - 1 nodes, which is not modelled.
- Literals.Strtol: handles only text of the number rule `-?[0-9]+`. Leading white space, a `+` sign and trailing characters, which general `strtol` accepts, cannot reach it.
- The unset `err` field of a number and the unset `num` field of an error: reading the latter is `Unpredictable` in `AsWritten`, and `Value` has no unset fields.

## Findings

| source | as written | input that shows it | evidently intended | confidence | as-written member | corrected member |
|---|---|---|---|---|---|---|
| REPL.c:125 | unary minus when `children[3]->children_num == 0`, which a literal second operand also satisfies | the line `- 5 3` gives -5; `- 10 1 2` gives -10 | negation only when no second operand follows (`children[3]` not tagged "expr"): 2 and 7 | high; not executed | Findings.MinusWithLiteralSecondOperand | Properties.EvalForm |
| REPL.c:100 | `strcmp(operator, "^") == 0 \|\| strcmp(operator, "**")` is true for every symbol but `**` | `@` applied to 2 and 3 gives 8; `**` applied to 2 and 3 gives `Invalid Operator` | `^` and `**` are powers, anything else is `Invalid Operator` | high at the level of `get_op`; no parsed line shows it, since the grammar's operator rule (`REPL.c:164`) admits neither `**` nor an unknown symbol; not executed | Findings.ExponentTest | Tables.GetOp |
| REPL.c:99 | `x.num % y.num` with no zero check | the line `% 5 0` is undefined behaviour (a crash on common hardware) | `Error: Division By Zero`, as for `/` | high; not executed | Findings.RemainderByZero | Properties.Division |
| REPL.c:100 | `val_num(pow(x.num, y.num))` with no check on the base | the line `^ 0 -1`: `pow(0, -1)` is an infinity, and its conversion to `long` is undefined | `Error: Division By Zero`, as 1 / 0 is for `/` | medium; the intent is inferred from the `/` branch; not executed | Findings.ZeroToNegativePower | Tables.Power |
| REPL.c:105-107 | `min`/`max` read `x.num` and `y.num` without checking for errors | the line `min (/ 1 0) 1` reads the unset `num` of the error | the error propagates, as in `get_op` | high; not executed | Findings.FunctionOfError | Tables.GetFunc |
| REPL.c:125-126 | `val_num(-x.num)` whatever `x` is | the line `- (/ 1 0)` negates the unset `num` of the error | the error propagates | high; not executed | Findings.NegationOfError | Properties.EvalForm |
