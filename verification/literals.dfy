/** Decimal text: the grammar's number rule `-?[0-9]+`, the value `strtol`
    reads from it in base 10, and the text `printf("%li")` writes for a value. */
module Literals {
  import opened CLong

  predicate IsDigit(c: char) {
    '0' as int <= c as int <= '9' as int
  }

  predicate AllDigits(s: string) {
    forall i :: 0 <= i < |s| ==> IsDigit(s[i])
  }

  /** The number rule of the grammar: an optional minus sign and one or more digits. */
  predicate IsDecimalLiteral(s: string) {
    if |s| > 0 && s[0] == '-' then |s| > 1 && AllDigits(s[1..]) else |s| > 0 && AllDigits(s)
  }

  function DigitValue(c: char): nat
    requires IsDigit(c)
  {
    (c as int) - ('0' as int)
  }

  function DigitChar(d: nat): (c: char)
    requires d < 10
    ensures IsDigit(c) && DigitValue(c) == d
  {
    (('0' as int) + d) as char
  }

  /** The value of a string of digits, most significant first; leading zeros
      do not change it. */
  function DigitsValue(s: string): nat
    requires AllDigits(s)
  {
    if |s| == 0 then 0 else DigitsValue(s[..|s| - 1]) * 10 + DigitValue(s[|s| - 1])
  }

  /** The mathematical value of a literal of the number rule. */
  function LiteralValue(s: string): int
    requires IsDecimalLiteral(s)
  {
    if s[0] == '-' then -(DigitsValue(s[1..]) as int) else DigitsValue(s)
  }

  /** The digits `printf` writes for a natural number: no leading zeros, and
      reading them back gives the number. */
  function ShowNat(n: nat): (s: string)
    ensures |s| > 0 && AllDigits(s)
    ensures DigitsValue(s) == n
    ensures s[0] == '0' ==> s == "0"
    decreases n
  {
    if n < 10 then [DigitChar(n)]
    else
      var prefix := ShowNat(n / 10);
      var s := prefix + [DigitChar(n % 10)];
      assert s[..|s| - 1] == prefix;
      s
  }

  /** The text `%li` writes: a literal of the number rule with no leading
      zero and no minus sign on zero. */
  predicate Canonical(s: string) {
    && IsDecimalLiteral(s)
    && (s[0] == '-' ==> s[1] != '0')
    && (s[0] != '-' ==> s == "0" || s[0] != '0')
  }

  /** `printf("%li", n)`: the canonical literal whose value is `n`, so
      printing and reading back are inverse. */
  function ShowInt(n: int): (s: string)
    ensures Canonical(s)
    ensures LiteralValue(s) == n
    ensures n >= 0 ==> IsDigit(s[0])
    ensures n < 0 ==> s[0] == '-'
  {
    if n < 0 then
      var d := ShowNat(-n);
      var s := "-" + d;
      assert s[1..] == d;
      s
    else ShowNat(n)
  }

  /** A run of digits with no leading zero is how `ShowNat` writes its value. */
  lemma {:induction false} ShowNatOfDigits(s: string)
    requires |s| > 0 && AllDigits(s) && (s == "0" || s[0] != '0')
    ensures ShowNat(DigitsValue(s)) == s
    decreases |s|
  {
    var p := s[..|s| - 1];
    var c := s[|s| - 1];
    var d := DigitValue(c);
    assert DigitChar(d) == c;
    if |p| == 0 {
      assert DigitsValue(s) == d;
      assert [c] == s;
    } else {
      assert p[0] == s[0] && p[0] != '0';
      assert DigitsValue(p) > 0 by {
        LeadingDigitCounts(p);
      }
      var v := DigitsValue(s);
      assert v == DigitsValue(p) * 10 + d;
      assert v / 10 == DigitsValue(p) && v % 10 == d;
      ShowNatOfDigits(p);
      assert s == p + [c];
    }
  }

  /** A run of digits starting with a nonzero digit has a nonzero value. */
  lemma {:induction false} LeadingDigitCounts(s: string)
    requires |s| > 0 && AllDigits(s) && s[0] != '0'
    ensures DigitsValue(s) > 0
    decreases |s|
  {
    if |s| > 1 {
      var p := s[..|s| - 1];
      assert p[0] == s[0];
      LeadingDigitCounts(p);
    }
  }

  /** Every canonical literal is the text `%li` writes for its value: the
      printed form of a number is the only canonical literal for it. */
  lemma {:induction false} ShowIntOfCanonical(s: string)
    requires Canonical(s)
    ensures ShowInt(LiteralValue(s)) == s
  {
    if s[0] == '-' {
      var d := s[1..];
      assert d[0] == s[1] && d[0] != '0';
      LeadingDigitCounts(d);
      ShowNatOfDigits(d);
      assert s == "-" + d;
    } else {
      ShowNatOfDigits(s);
    }
  }

  /** `strtol(s, NULL, 10)` on a literal of the number rule: the value, or the
      nearer `long` bound with `ERANGE` reported when it does not fit. */
  function Strtol(s: string): (r: (int, bool))
    requires IsDecimalLiteral(s)
    ensures InLong(r.0)
    ensures r.1 <==> !InLong(LiteralValue(s))
    ensures !r.1 ==> r.0 == LiteralValue(s)
    ensures r.1 ==> r.0 == (if LiteralValue(s) > 0 then LongMax else LongMin)
  {
    var v := LiteralValue(s);
    if v > LongMax then (LongMax, true)
    else if v < LongMin then (LongMin, true)
    else (v, false)
  }
}
