/** The C `long` of the calculator (64-bit, two's complement on the platforms
    it targets) and C's integer division, which truncates toward zero.
    Dafny's own `/` and `%` are Euclidean, so the C operators are defined here
    from magnitudes and characterised independently of that definition. */
module CLong {

  const LongMin: int := -0x8000_0000_0000_0000
  const LongMax: int := 0x7FFF_FFFF_FFFF_FFFF

  /** `n` is representable as a C `long` */
  predicate InLong(n: int) {
    LongMin <= n <= LongMax
  }

  function Abs(n: int): nat {
    if n < 0 then -n else n
  }

  /** `q` is what C's `a / b` yields: the remainder `a - b * q` it leaves is
      smaller than the divisor in magnitude and is zero or has the sign of
      the dividend. */
  predicate IsTruncQuotient(a: int, b: int, q: int) {
    var r := a - b * q;
    Abs(r) < Abs(b) && (r == 0 || (r < 0 <==> a < 0))
  }

  /** `m` is what C's `a % b` yields: `b` divides `a - m`, and `m` is smaller
      than the divisor in magnitude and is zero or has the sign of `a`. */
  predicate IsTruncRemainder(a: int, b: int, m: int)
    requires b != 0
  {
    (a - m) % b == 0 && Abs(m) < Abs(b) && (m == 0 || (m < 0 <==> a < 0))
  }

  /** C's `/` on integers: the quotient truncated toward zero. */
  function TruncDiv(a: int, b: int): (q: int)
    requires b != 0
    ensures IsTruncQuotient(a, b, q)
  {
    var q0: int := Abs(a) / Abs(b);
    MagnitudeDivision(a, b);
    if (a < 0) == (b < 0) then q0 else -q0
  }

  /** C's `%` on integers: the remainder that goes with `TruncDiv`. */
  function TruncRem(a: int, b: int): (m: int)
    requires b != 0
    ensures IsTruncRemainder(a, b, m)
  {
    var q := TruncDiv(a, b);
    MultipleIsDivisible(b, q);
    a - b * q
  }

  /** The remainder left by the magnitude quotient, with the dividend's sign. */
  lemma MagnitudeDivision(a: int, b: int)
    requires b != 0
    ensures var q0: int := Abs(a) / Abs(b);
            var q := if (a < 0) == (b < 0) then q0 else -q0;
            a - b * q == (if a < 0 then -(Abs(a) % Abs(b)) else Abs(a) % Abs(b))
  {
    var A: int, B: int := Abs(a), Abs(b);
    var q0: int, m0: int := A / B, A % B;
    assert A == B * q0 + m0;
    var q: int := if (a < 0) == (b < 0) then q0 else -q0;
    if b < 0 {
      assert b * q == -(B * q);
    } else {
      assert b * q == B * q;
    }
    if (a < 0) == (b < 0) {
      assert B * q == B * q0;
    } else {
      assert B * q == -(B * q0);
    }
  }

  lemma MultipleIsDivisible(b: int, q: int)
    requires b != 0
    ensures (b * q) % b == 0
  {
    var k := (b * q) / b;
    var m := (b * q) % b;
    assert b * q == b * k + m;
    assert 0 <= m < Abs(b);
    assert m == b * (q - k);
    if q != k {
      NonzeroMultipleIsLarge(b, q - k);
    }
  }

  /** A nonzero multiple of `b` is at least `b` in magnitude. */
  lemma NonzeroMultipleIsLarge(b: int, k: int)
    requires k != 0
    ensures Abs(b * k) >= Abs(b)
  {
    if k > 0 {
      assert Abs(k) * Abs(b) >= Abs(b);
    } else {
      assert Abs(k) * Abs(b) >= Abs(b);
    }
    assert Abs(b * k) == Abs(k) * Abs(b);
  }

  /** The truncated quotient is the only integer with its property, so
      `IsTruncQuotient` is a definition of C's `/` independent of `TruncDiv`. */
  lemma {:induction false} TruncQuotientUnique(a: int, b: int, q: int)
    requires b != 0
    requires IsTruncQuotient(a, b, q)
    ensures q == TruncDiv(a, b)
  {
    var q' := TruncDiv(a, b);
    var r, r' := a - b * q, a - b * q';
    assert r - r' == b * (q' - q);
    assert Abs(r - r') < Abs(b);
    if q' != q {
      NonzeroMultipleIsLarge(b, q' - q);
    }
  }

  /** Likewise the truncated remainder is the only integer with its property. */
  lemma {:induction false} TruncRemainderUnique(a: int, b: int, m: int)
    requires b != 0
    requires IsTruncRemainder(a, b, m)
    ensures m == TruncRem(a, b)
  {
    var k := (a - m) / b;
    assert a - m == b * k + (a - m) % b;
    assert a - b * k == m;
    assert IsTruncQuotient(a, b, k);
    TruncQuotientUnique(a, b, k);
  }

  /** The worked cases of truncating division: the quotient rounds toward
      zero and the remainder follows the dividend's sign. */
  lemma TruncationExamples()
    ensures TruncDiv(7, 2) == 3 && TruncDiv(-7, 2) == -3
    ensures TruncDiv(7, -2) == -3 && TruncDiv(-7, -2) == 3
    ensures TruncRem(7, 2) == 1 && TruncRem(-7, 2) == -1
    ensures TruncRem(7, -2) == 1 && TruncRem(-7, -2) == -1
  {
    assert IsTruncQuotient(-7, 2, -3);
    TruncQuotientUnique(-7, 2, -3);
    assert IsTruncQuotient(7, -2, -3);
    TruncQuotientUnique(7, -2, -3);
  }
}
