/** Integer helpers that make C++ arithmetic explicit: truncating division,
    powers of two, fixed-width wrap-around and decimal text.
 */
module Numeric {

  /** One byte of storage. */
  type Byte = x: int | 0 <= x < 256

  function Min(a: int, b: int): int { if a <= b then a else b }

  function Max(a: int, b: int): int { if a <= b then b else a }

  /** 2 to the power n. */
  function Pow2(n: nat): (r: nat)
    ensures r >= 1
  {
    if n == 0 then 1 else 2 * Pow2(n - 1)
  }

  lemma {:induction false} Pow2Add(a: nat, b: nat)
    ensures Pow2(a + b) == Pow2(a) * Pow2(b)
  {
    if a > 0 {
      Pow2Add(a - 1, b);
    }
  }

  /** C++ integer division: the quotient is truncated toward zero
      (Dafny's own `/` is Euclidean). */
  function CDiv(a: int, b: int): int
    requires b != 0
  {
    if a >= 0 && b > 0 then a / b
    else if a < 0 && b > 0 then -((-a) / b)
    else if a >= 0 then -(a / (-b))
    else (-a) / (-b)
  }

  lemma MulLe(a: nat, b: nat, k: nat)
    requires a <= b
    ensures a * k <= b * k
  {
  }

  lemma MulDivCancel(a: nat, k: nat)
    requires k > 0
    ensures a * k / k == a
  {
    var q, r := a * k / k, a * k % k;
    assert a * k == q * k + r && 0 <= r < k;
    assert (a - q) * k == r;
    if a - q >= 1 {
      MulLe(1, a - q, k);
    } else if a - q <= -1 {
      MulLe(1, q - a, k);
    }
  }

  /** C++ division undoes multiplication by the same nonzero value. */
  lemma CDivCancel(e: int, v: int)
    requires v != 0
    ensures CDiv(e * v, v) == e
  {
    if e == 0 {
      assert e * v == 0;
    } else if e > 0 && v > 0 {
      MulDivCancel(e, v);
    } else if e < 0 && v > 0 {
      assert -(e * v) == (-e) * v && (-e) * v > 0;
      MulDivCancel(-e, v);
    } else if e > 0 {
      assert -(e * v) == e * (-v) && e * (-v) > 0;
      MulDivCancel(e, -v);
    } else {
      assert e * v == (-e) * (-v) && (-e) * (-v) > 0;
      MulDivCancel(-e, -v);
    }
  }

  /** The four arithmetic operators the element types provide, applied
      one element at a time by the matrix, colour and vector classes. */
  datatype Op = Plus | Minus | Times | Over

  /** `a op b` on a signed integer element type; division truncates and
      must not divide by zero. */
  function ApplyOp(op: Op, a: int, b: int): int
    requires op == Over ==> b != 0
  {
    match op
    case Plus => a + b
    case Minus => a - b
    case Times => a * b
    case Over => CDiv(a, b)
  }

  /** C++ integer absolute value. */
  function Abs(a: int): nat { if a < 0 then -a else a }

  /** Truncation of a real toward zero, the effect of a C++ cast from a
      floating-point value to an integer type. */
  function Trunc(x: real): int
  {
    if x >= 0.0 then x.Floor else -((-x).Floor)
  }

  /** Truncating an integer-valued real gives the integer. */
  lemma TruncOfInt(i: int)
    ensures Trunc(i as real) == i
  {
    if i < 0 {
      assert -(i as real) == (-i) as real;
    }
  }

  /** A real in [0, m] truncates to an integer in [0, m]. */
  lemma TruncRange(y: real, m: nat)
    ensures 0.0 <= y <= m as real ==> 0 <= Trunc(y) <= m
  {
  }

  /** x and y differ by a multiple of m. */
  predicate Congruent(x: int, y: int, m: int)
    requires m >= 1
  {
    (x - y) % m == 0
  }

  /** A multiple of m is congruent to 0. */
  lemma MultipleMod(q: int, m: int)
    requires m >= 1
    ensures (q * m) % m == 0
  {
    var d, r := (q * m) / m, (q * m) % m;
    assert (q - d) * m == r;
    if q - d >= 1 {
      MulLe(1, q - d, m);
    } else if q - d <= -1 {
      MulLe(1, d - q, m);
    }
  }

  /** The Euclidean remainder is congruent to the dividend. */
  lemma ModCongruent(x: int, m: int)
    requires m >= 1
    ensures Congruent(x, x % m, m)
  {
    assert x - x % m == (x / m) * m;
    MultipleMod(x / m, m);
  }

  lemma CongruentTrans(a: int, b: int, c: int, m: int)
    requires m >= 1 && Congruent(a, b, m) && Congruent(b, c, m)
    ensures Congruent(a, c, m)
  {
    var q1, q2 := (a - b) / m, (b - c) / m;
    assert a - c == (q1 + q2) * m;
    MultipleMod(q1 + q2, m);
  }

  /** A congruence survives multiplying both sides by p. */
  lemma CongruentScale(a: int, b: int, m: int, p: int)
    requires m >= 1 && Congruent(a, b, m)
    ensures Congruent(a * p, b * p, m)
  {
    var q := (a - b) / m;
    assert a - b == q * m;
    assert a * p - b * p == (a - b) * p;
    assert (q * m) * p == (q * p) * m;
    MultipleMod(q * p, m);
  }

  /** Two values of one window [lo, lo + m) congruent to the same x are
      equal. */
  lemma CongruentUnique(x: int, y: int, z: int, lo: int, m: int)
    requires m >= 1 && Congruent(x, y, m) && Congruent(x, z, m)
    requires lo <= y < lo + m && lo <= z < lo + m
    ensures y == z
  {
    var q1, q2 := (x - y) / m, (x - z) / m;
    assert z - y == (q1 - q2) * m;
    if q1 - q2 >= 1 {
      MulLe(1, q1 - q2, m);
    } else if q1 - q2 <= -1 {
      assert y - z == (q2 - q1) * m;
    }
  }

  /** Reduction of x into the unsigned range [0, 2^bits). */
  function WrapUnsigned(bits: nat, x: int): (r: int)
    ensures 0 <= r < Pow2(bits)
    ensures 0 <= x < Pow2(bits) ==> r == x
  {
    var m := Pow2(bits);
    ModBelow(x, m);
    x % m
  }

  /** WrapUnsigned(bits, x) is the one value of [0, 2^bits) that differs
      from x by a multiple of 2^bits. */
  lemma WrapUnsignedIsResidue(bits: nat, x: int, r: int)
    ensures r == WrapUnsigned(bits, x) <==> 0 <= r < Pow2(bits) && Congruent(x, r, Pow2(bits))
  {
    ModCongruent(x, Pow2(bits));
    if 0 <= r < Pow2(bits) && Congruent(x, r, Pow2(bits)) {
      CongruentUnique(x, r, WrapUnsigned(bits, x), 0, Pow2(bits));
    }
  }

  /** Reduction of x into the two's-complement range [-2^(bits-1), 2^(bits-1)). */
  function WrapSigned(bits: nat, x: int): (r: int)
    requires bits >= 1
    ensures -(Pow2(bits - 1) as int) <= r < Pow2(bits - 1)
    ensures -(Pow2(bits - 1) as int) <= x < Pow2(bits - 1) ==> r == x
  {
    var h := Pow2(bits - 1);
    assert Pow2(bits) == 2 * h;
    ModBelow(x + h, 2 * h);
    (x + h) % (2 * h) - h
  }

  /** WrapSigned(bits, x) is the one value of [-2^(bits-1), 2^(bits-1))
      that differs from x by a multiple of 2^bits. */
  lemma WrapSignedIsResidue(bits: nat, x: int, r: int)
    requires bits >= 1
    ensures r == WrapSigned(bits, x) <==>
            -(Pow2(bits - 1) as int) <= r < Pow2(bits - 1) && Congruent(x, r, Pow2(bits))
  {
    var h := Pow2(bits - 1);
    assert Pow2(bits) == 2 * h;
    ModCongruent(x + h, 2 * h);
    assert x - WrapSigned(bits, x) == (x + h) - (x + h) % (2 * h);
    if -(h as int) <= r < h && Congruent(x, r, Pow2(bits)) {
      CongruentUnique(x, r, WrapSigned(bits, x), -(h as int), 2 * h);
    }
  }

  /** An unsigned value with the top bit set reads as negative. */
  lemma WrapSignedHigh(bits: nat, x: int)
    requires bits >= 1 && Pow2(bits - 1) <= x < Pow2(bits)
    ensures WrapSigned(bits, x) == x - Pow2(bits) < 0
  {
    var h := Pow2(bits - 1);
    assert Pow2(bits) == 2 * h;
    ModOnce(x + h, 2 * h);
  }

  lemma ModOnce(y: int, m: int)
    requires m >= 1 && m <= y < 2 * m
    ensures y % m == y - m
  {
  }

  /** A value in [-2^bits, 0) wraps to itself plus 2^bits. */
  lemma WrapNegative(bits: nat, x: int)
    ensures -(Pow2(bits) as int) <= x < 0 ==> WrapUnsigned(bits, x) == x + Pow2(bits)
  {
    if -(Pow2(bits) as int) <= x < 0 {
      ModNegative(x, Pow2(bits));
    }
  }

  lemma ModNegative(x: int, m: int)
    requires m >= 1 && -m <= x < 0
    ensures x % m == x + m
  {
  }

  /** Euclidean remainder by a positive modulus: in [0, m), and the
      identity on [0, m). */
  lemma ModBelow(x: int, m: int)
    requires m >= 1
    ensures 0 <= x % m < m
    ensures 0 <= x < m ==> x % m == x
  {
  }

  /** The character for a decimal digit. */
  function DigitChar(d: nat): char
    requires d < 10
  {
    (48 + d) as char
  }

  /** Decimal text of a natural number, no leading zeros, as printed by "%lu" or "%d". */
  function Decimal(n: nat): (s: string)
    ensures |s| >= 1
    ensures forall i :: 0 <= i < |s| ==> '0' <= s[i] <= '9'
  {
    if n < 10 then [DigitChar(n)] else Decimal(n / 10) + [DigitChar(n % 10)]
  }

  /** Decimal text of an integer with a leading '-' when negative, as
      printed by "%d". */
  function SignedDecimal(x: int): (s: string)
    ensures |s| >= 1
    ensures x < 0 <==> s[0] == '-'
  {
    if x < 0 then "-" + Decimal(-x) else Decimal(x)
  }

  /** Value of a string of decimal digits. */
  function ParseDecimal(s: string): nat
    requires forall i :: 0 <= i < |s| ==> '0' <= s[i] <= '9'
  {
    if |s| == 0 then 0
    else ParseDecimal(s[..|s| - 1]) * 10 + ((s[|s| - 1] as int) - 48)
  }

  /** Decimal text is read back as the number it was printed from. */
  lemma {:induction false} DecimalRoundTrip(n: nat)
    ensures ParseDecimal(Decimal(n)) == n
  {
    if n >= 10 {
      var s := Decimal(n);
      assert s[..|s| - 1] == Decimal(n / 10);
      DecimalRoundTrip(n / 10);
    }
  }

  /** Different numbers print differently. */
  lemma DecimalInjective(m: nat, n: nat)
    requires Decimal(m) == Decimal(n)
    ensures m == n
  {
    DecimalRoundTrip(m);
    DecimalRoundTrip(n);
  }
}
