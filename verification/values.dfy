/** The evaluator's result: a number or one of four error kinds (the tagged
    `Value` struct with `val_num` and `val_err`), and the text `val_print`
    shows for it. */
module Values {
  import opened Literals

  datatype ErrKind = DivZero | BadOp | BadNum | BadFunc

  datatype Value = Num(n: int) | Err(kind: ErrKind)

  /** The fixed sentence shown for each error kind. */
  function Message(k: ErrKind): string {
    match k
    case DivZero => "Error: Division By Zero"
    case BadOp => "Error: Invalid Operator"
    case BadNum => "Error: Invalid Number"
    case BadFunc => "Error: Invalid Function"
  }

  /** The text `val_print` writes: a number in decimal, an error as its
      sentence. A number's text reads back as that number, and no number's
      text starts like an error's. */
  function Format(v: Value): (s: string)
    ensures v.Num? ==> Canonical(s) && LiteralValue(s) == v.n
    ensures |s| > 0 && (s[0] == 'E' <==> v.Err?)
  {
    match v
    case Num(n) => ShowInt(n)
    case Err(k) => Message(k)
  }

  /** Different values are shown differently, so the printed line determines
      the value. */
  lemma {:induction false} FormatInjective(a: Value, b: Value)
    requires Format(a) == Format(b)
    ensures a == b
  {
  }
}
