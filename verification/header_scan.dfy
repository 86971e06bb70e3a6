/** The pieces of `fscanf` and `skipComment` the PPM and PFM header
    readers use, over the file's bytes read as characters.

    Each scan takes a cursor into the text and returns the value read and
    the cursor after it, or None where `fscanf` reports a failed
    conversion.
 */
module HeaderScan {
  import opened Numeric
  import opened Wrappers

  /** The file's bytes as the characters `fgetc` returns. */
  function Text(bs: seq<Byte>): (s: string)
    ensures |s| == |bs|
    ensures forall i :: 0 <= i < |bs| ==> s[i] as int == bs[i]
  {
    seq(|bs|, i requires 0 <= i < |bs| => bs[i] as char)
  }

  /** Text whose characters are all single bytes. */
  predicate IsAscii(s: string)
  {
    forall i :: 0 <= i < |s| ==> s[i] as int < 256
  }

  /** The bytes `fprintf` writes for a text of single-byte characters. */
  function Ascii(s: string): (bs: seq<Byte>)
    requires IsAscii(s)
    ensures |bs| == |s|
    ensures Text(bs) == s
  {
    seq(|s|, i requires 0 <= i < |s| => s[i] as int)
  }

  lemma TextAppend(a: seq<Byte>, b: seq<Byte>)
    ensures Text(a + b) == Text(a) + Text(b)
  {
  }

  /** The text d stands in s at pos. Stated by recursion rather than by a
      quantifier, so that facts about it are unfolded only on demand. */
  predicate TextAt(s: string, pos: nat, d: string)
    decreases |d|
  {
    pos <= |s| && (|d| == 0 || (pos < |s| && s[pos] == d[0] && TextAt(s, pos + 1, d[1..])))
  }

  /** TextAt holds exactly when every character of d is in place. */
  lemma {:induction false} TextAtIff(s: string, pos: nat, d: string)
    ensures TextAt(s, pos, d) <==>
            pos + |d| <= |s| && forall i :: pos <= i < pos + |d| ==> s[i] == d[i - pos]
    decreases |d|
  {
    if |d| > 0 {
      TextAtIff(s, pos + 1, d[1..]);
      if TextAt(s, pos, d) {
        forall i | pos <= i < pos + |d|
          ensures s[i] == d[i - pos]
        {
          if i > pos {
            assert s[i] == d[1..][i - (pos + 1)];
          }
        }
      }
      if pos + |d| <= |s| && forall i :: pos <= i < pos + |d| ==> s[i] == d[i - pos] {
        assert s[pos] == d[0];
        forall i | pos + 1 <= i < pos + 1 + |d[1..]|
          ensures s[i] == d[1..][i - (pos + 1)]
        {
          assert s[i] == d[i - pos];
        }
      }
    }
  }

  /** The characters `isspace` accepts, which `%lu`, `%d` and `%g` skip. */
  predicate IsSpace(c: char)
  {
    c == ' ' || c == '\t' || c == '\n' || c == '\r' || c == '\U{B}' || c == '\U{C}'
  }

  predicate IsDigit(c: char)
  {
    '0' <= c <= '9'
  }

  /** The first position at or after pos that is not white space. */
  function SkipSpace(s: string, pos: nat): (r: nat)
    requires pos <= |s|
    ensures pos <= r <= |s|
    ensures r == |s| || !IsSpace(s[r])
    decreases |s| - pos
  {
    if pos < |s| && IsSpace(s[pos]) then SkipSpace(s, pos + 1) else pos
  }

  /** The end of the run of digits starting at pos. */
  function DigitsEnd(s: string, pos: nat): (r: nat)
    requires pos <= |s|
    ensures pos <= r <= |s|
    ensures r == |s| || !IsDigit(s[r])
    decreases |s| - pos
  {
    if pos < |s| && IsDigit(s[pos]) then DigitsEnd(s, pos + 1) else pos
  }

  /** `%c`: the next character, white space included. */
  function ScanChar(s: string, pos: nat): (r: Option<(char, nat)>)
    requires pos <= |s|
    ensures r.Some? <==> pos < |s|
    ensures r.Some? ==> r.value == (s[pos], pos + 1)
  {
    if pos < |s| then Some((s[pos], pos + 1)) else None
  }

  /** An ordinary character of the format: matched exactly. */
  function ScanLiteral(s: string, pos: nat, c: char): (r: Option<nat>)
    requires pos <= |s|
    ensures r.Some? <==> pos < |s| && s[pos] == c
    ensures r.Some? ==> r.value == pos + 1
  {
    if pos < |s| && s[pos] == c then Some(pos + 1) else None
  }

  /** `%lu`, which reads as `strtoul` does: the syntax of `%d`, white
      space, an optional sign and a non-empty run of decimal digits, with
      a minus sign negating the value modulo 2^64. */
  function ScanNumber(s: string, pos: nat): (r: Option<(nat, nat)>)
    requires pos <= |s|
    ensures r.Some? <==> SignEnd(s, SkipSpace(s, pos)) < |s| && IsDigit(s[SignEnd(s, SkipSpace(s, pos))])
    ensures r.Some? ==> pos < r.value.1 <= |s|
    ensures r.Some? ==> r.value.1 == |s| || !IsDigit(s[r.value.1])
  {
    var p := SkipSpace(s, pos);
    var m := SignEnd(s, p);
    var q := DigitsEnd(s, m);
    if q == m then None
    else
      var n := DigitsValue(s, m, q);
      Some((if m == p + 1 && s[p] == '-' then WrapUnsigned(64, -(n as int)) else n, q))
  }

  /** `%lu` against `%d` on the same text: the same syntax and the same
      end, the same value when it is not negative, and a negative value v
      with |v| <= 2^64 read as 2^64 + v. */
  lemma NumberIsInt(s: string, pos: nat)
    requires pos <= |s|
    ensures ScanNumber(s, pos).Some? <==> ScanInt(s, pos).Some?
    ensures ScanNumber(s, pos).Some? ==> ScanNumber(s, pos).value.1 == ScanInt(s, pos).value.1
    ensures ScanInt(s, pos).Some? && ScanInt(s, pos).value.0 >= 0 ==>
              ScanNumber(s, pos).value.0 == ScanInt(s, pos).value.0
    ensures ScanInt(s, pos).Some? && ScanInt(s, pos).value.0 < 0 ==> ScanNumber(s, pos).value.0 < Pow2(64)
    ensures ScanInt(s, pos).Some? && -(Pow2(64) as int) <= ScanInt(s, pos).value.0 < 0 ==>
              ScanNumber(s, pos).value.0 == Pow2(64) + ScanInt(s, pos).value.0
  {
    if ScanInt(s, pos).Some? && ScanInt(s, pos).value.0 < 0 {
      WrapNegative(64, ScanInt(s, pos).value.0);
    }
  }

  /** The position after the optional '+' or '-' at p. */
  function SignEnd(s: string, p: nat): (m: nat)
    requires p <= |s|
    ensures m <= |s|
    ensures m == p + 1 <==> p < |s| && (s[p] == '-' || s[p] == '+')
    ensures m == p <==> !(p < |s| && (s[p] == '-' || s[p] == '+'))
  {
    if p < |s| && (s[p] == '-' || s[p] == '+') then p + 1 else p
  }

  /** The value of a digit character. */
  function DigitValue(c: char): (d: nat)
    ensures d < 10
    ensures IsDigit(c) ==> d == c as int - 48
  {
    if IsDigit(c) then c as int - 48 else 0
  }

  /** The value of the digits s[p..q]. */
  function DigitsValue(s: string, p: nat, q: nat): nat
    requires p <= q <= |s|
    decreases q - p
  {
    if q == p then 0 else DigitsValue(s, p, q - 1) * 10 + DigitValue(s[q - 1])
  }

  /** Digits d standing in s at p have, in place, the value of d. */
  lemma {:induction false} DigitsValueOf(s: string, p: nat, d: string)
    requires forall i :: 0 <= i < |d| ==> '0' <= d[i] <= '9'
    requires p + |d| <= |s|
    requires forall i :: p <= i < p + |d| ==> s[i] == d[i - p]
    ensures DigitsValue(s, p, p + |d|) == ParseDecimal(d)
    decreases |d|
  {
    if |d| > 0 {
      var d' := d[..|d| - 1];
      DigitsValueOf(s, p, d');
      assert s[p + |d| - 1] == d[|d| - 1];
    }
  }

  /** The value of the digits s[p..q] read after a decimal point. */
  function Fraction(s: string, p: nat, q: nat): (x: real)
    requires p <= q <= |s|
    ensures 0.0 <= x
    decreases q - p
  {
    if q == p then 0.0 else (DigitValue(s[p]) as real + Fraction(s, p + 1, q)) / 10.0
  }

  /** `%g` on plain decimal text: white space, an optional sign, digits
      with an optional fractional part, at least one digit in all. */
  function ScanReal(s: string, pos: nat): (r: Option<(real, nat)>)
    requires pos <= |s|
    ensures r.Some? ==> pos < r.value.1 <= |s|
    ensures r.Some? ==> r.value.1 == |s| || !IsDigit(s[r.value.1])
    ensures r.Some? && r.value.0 < 0.0 ==> SkipSpace(s, pos) < |s| && s[SkipSpace(s, pos)] == '-'
  {
    var p := SkipSpace(s, pos);
    var negative := p < |s| && s[p] == '-';
    var m := if p < |s| && (s[p] == '-' || s[p] == '+') then p + 1 else p;
    var q := DigitsEnd(s, m);
    var whole := DigitsValue(s, m, q) as real;
    if q < |s| && s[q] == '.' then
      var e := DigitsEnd(s, q + 1);
      if q == m && e == q + 1 then None
      else
        var x := whole + Fraction(s, q + 1, e);
        Some((if negative then -x else x, e))
    else if q == m then None
    else Some((if negative then -whole else whole, q))
  }

  /** The end of the line starting at pos: the first '\n' or '\r', or the
      end of the text. */
  function LineEnd(s: string, pos: nat): (r: nat)
    requires pos <= |s|
    ensures pos <= r <= |s|
    ensures r == |s| || s[r] == '\n' || s[r] == '\r'
    decreases |s| - pos
  {
    if pos < |s| && s[pos] != '\n' && s[pos] != '\r' then LineEnd(s, pos + 1) else pos
  }

  /** `skipComment(fp, token)`: while the next character is the token,
      skip past the end of its line (the line break included). */
  function SkipComment(s: string, pos: nat, token: char): (r: nat)
    requires pos <= |s|
    ensures pos <= r <= |s|
    ensures r == |s| || s[r] != token
    ensures pos < |s| && s[pos] != token ==> r == pos
    decreases |s| - pos
  {
    if pos < |s| && s[pos] == token then
      var e := LineEnd(s, pos);
      if e < |s| then SkipComment(s, e + 1, token) else |s|
    else pos
  }

  /** Everything `skipComment` passes over is whole comment lines: every
      skipped position that starts a line holds the token. */
  lemma {:induction false} SkipCommentSkipsCommentLines(s: string, pos: nat, token: char, k: nat)
    requires pos <= |s| && pos <= k < SkipComment(s, pos, token)
    requires k == pos || s[k - 1] == '\n' || s[k - 1] == '\r'
    ensures s[k] == token
    decreases |s| - pos
  {
    var e := LineEnd(s, pos);
    if k > pos && e < |s| && k > e {
      SkipCommentSkipsCommentLines(s, e + 1, token, k);
    } else if k > pos {
      LineEndNoBreak(s, pos, k - 1);
    }
  }

  /** No line break comes before the end of the line. */
  lemma {:induction false} LineEndNoBreak(s: string, pos: nat, k: nat)
    requires pos <= |s| && pos <= k < LineEnd(s, pos)
    ensures s[k] != '\n' && s[k] != '\r'
    decreases |s| - pos
  {
    if pos < k {
      LineEndNoBreak(s, pos + 1, k);
    }
  }

  /** Skipping is idempotent: a second skip from where the first stopped
      does not move. */
  lemma SkipCommentIdempotent(s: string, pos: nat, token: char)
    requires pos <= |s|
    ensures SkipComment(s, SkipComment(s, pos, token), token) == SkipComment(s, pos, token)
  {
  }

  /** Printed decimal text scans back as the number: where the digits of
      Decimal(n) stand at pos, followed by a non-digit or the end, `%lu`
      reads n and stops right after the last digit. */
  lemma ScanNumberAt(s: string, pos: nat, n: nat)
    requires pos + |Decimal(n)| <= |s|
    requires forall i :: pos <= i < pos + |Decimal(n)| ==> s[i] == Decimal(n)[i - pos]
    requires pos + |Decimal(n)| == |s| || !IsDigit(s[pos + |Decimal(n)|])
    ensures ScanNumber(s, pos) == Some((n, pos + |Decimal(n)|))
  {
    ScanDigitsAt(s, pos, Decimal(n));
    DecimalRoundTrip(n);
  }

  /** A run of digits d at pos, followed by a non-digit or the end, scans
      as the value of d. */
  lemma ScanDigitsAt(s: string, pos: nat, d: string)
    requires |d| >= 1 && forall i :: 0 <= i < |d| ==> '0' <= d[i] <= '9'
    requires pos + |d| <= |s|
    requires forall i :: pos <= i < pos + |d| ==> s[i] == d[i - pos]
    requires pos + |d| == |s| || !IsDigit(s[pos + |d|])
    ensures ScanNumber(s, pos) == Some((ParseDecimal(d), pos + |d|))
  {
    var e := pos + |d|;
    assert s[pos] == d[0];
    SkipSpaceOver(s, pos, pos);
    DigitsEndOver(s, pos, e);
    DigitsValueOf(s, pos, d);
  }

  /** White space before the number is skipped. */
  lemma ScanNumberAfterSpace(s: string, pos: nat, stop: nat)
    requires pos <= stop <= |s|
    requires forall k :: pos <= k < stop ==> IsSpace(s[k])
    ensures ScanNumber(s, pos) == ScanNumber(s, stop)
  {
    SkipSpaceFrom(s, pos, stop);
  }

  /** Skipping from inside a run of white space ends where skipping from
      its start ends. */
  lemma {:induction false} SkipSpaceFrom(s: string, pos: nat, stop: nat)
    requires pos <= stop <= |s|
    requires forall k :: pos <= k < stop ==> IsSpace(s[k])
    ensures SkipSpace(s, pos) == SkipSpace(s, stop)
    decreases stop - pos
  {
    if pos < stop {
      SkipSpaceFrom(s, pos + 1, stop);
    }
  }

  /** The text "-1.000000" that `%f` prints for -1 scans back, under `%g`,
      as -1. */
  lemma ScanMinusOne(s: string, pos: nat)
    requires pos + 9 <= |s|
    requires forall i :: pos <= i < pos + 9 ==> s[i] == "-1.000000"[i - pos]
    requires pos + 9 == |s| || !IsDigit(s[pos + 9])
    ensures ScanReal(s, pos) == Some((-1.0, pos + 9))
  {
    assert s[pos] == '-' && s[pos + 1] == '1' && s[pos + 2] == '.';
    SkipSpaceOver(s, pos, pos);
    DigitsEndOver(s, pos + 1, pos + 2);
    assert DigitsValue(s, pos + 1, pos + 2) == 1;
    DigitsEndOver(s, pos + 3, pos + 9);
    FractionOfZeros(s, pos + 3, pos + 9);
  }

  /** Zeros after the decimal point add nothing. */
  lemma {:induction false} FractionOfZeros(s: string, p: nat, q: nat)
    requires p <= q <= |s|
    requires forall k :: p <= k < q ==> s[k] == '0'
    ensures Fraction(s, p, q) == 0.0
    decreases q - p
  {
    if p < q {
      FractionOfZeros(s, p + 1, q);
    }
  }

  lemma {:induction false} SkipSpaceOver(s: string, pos: nat, stop: nat)
    requires pos <= stop <= |s|
    requires forall k :: pos <= k < stop ==> IsSpace(s[k])
    requires stop == |s| || !IsSpace(s[stop])
    ensures SkipSpace(s, pos) == stop
    decreases stop - pos
  {
    if pos < stop {
      SkipSpaceOver(s, pos + 1, stop);
    }
  }

  lemma {:induction false} DigitsEndOver(s: string, pos: nat, stop: nat)
    requires pos <= stop <= |s|
    requires forall k :: pos <= k < stop ==> IsDigit(s[k])
    requires stop == |s| || !IsDigit(s[stop])
    ensures DigitsEnd(s, pos) == stop
    decreases stop - pos
  {
    if pos < stop {
      DigitsEndOver(s, pos + 1, stop);
    }
  }

  /** "P%c%c": the literal 'P', the type character and one more
      character; the type and the position after them. */
  function ScanMagic(s: string): (r: Option<(char, nat)>)
    ensures r.Some? ==> 2 < |s| && s[0] == 'P' && r.value == (s[1], 3)
  {
    var p1 :- ScanLiteral(s, 0, 'P');
    var typeChar :- ScanChar(s, p1);
    var dummy :- ScanChar(s, typeChar.1);
    Some((typeChar.0, dummy.1))
  }

  /** d is a run of at least one decimal digit. */
  predicate DigitRun(d: string)
  {
    |d| >= 1 && forall i :: 0 <= i < |d| ==> '0' <= d[i] <= '9'
  }

  /** A run of digits, followed by a character that is not a digit, scans
      as its number. */
  lemma NumberAt(s: string, pos: nat, d: string)
    requires DigitRun(d)
    requires TextAt(s, pos, d) && pos + |d| < |s| && !IsDigit(s[pos + |d|])
    ensures ScanNumber(s, pos) == Some((ParseDecimal(d), pos + |d|))
  {
    TextAtIff(s, pos, d);
    ScanDigitsAt(s, pos, d);
  }

  /** `%d`: skip white space, take an optional sign, then a non-empty run
      of decimal digits. */
  function ScanInt(s: string, pos: nat): (r: Option<(int, nat)>)
    requires pos <= |s|
    ensures r.Some? <==> SignEnd(s, SkipSpace(s, pos)) < |s| && IsDigit(s[SignEnd(s, SkipSpace(s, pos))])
    ensures r.Some? ==> pos < r.value.1 <= |s|
    ensures r.Some? ==> r.value.1 == |s| || !IsDigit(s[r.value.1])
    ensures r.Some? && r.value.0 < 0 ==> SkipSpace(s, pos) < |s| && s[SkipSpace(s, pos)] == '-'
  {
    var p := SkipSpace(s, pos);
    var m := SignEnd(s, p);
    var q := DigitsEnd(s, m);
    if q == m then None
    else
      var n: int := DigitsValue(s, m, q);
      Some((if m == p + 1 && s[p] == '-' then -n else n, q))
  }

  /** A run of digits, followed by a character that is not a digit, scans
      under `%d` as its number. */
  lemma IntAt(s: string, pos: nat, d: string)
    requires |d| >= 1 && forall i :: 0 <= i < |d| ==> '0' <= d[i] <= '9'
    requires TextAt(s, pos, d) && pos + |d| < |s| && !IsDigit(s[pos + |d|])
    ensures ScanInt(s, pos) == Some((ParseDecimal(d) as int, pos + |d|))
  {
    TextAtIff(s, pos, d);
    assert s[pos] == d[0];
    SkipSpaceOver(s, pos, pos);
    DigitsEndOver(s, pos, pos + |d|);
    DigitsValueOf(s, pos, d);
  }

  /** A minus sign and a run of digits, followed by a character that is
      not a digit, scan under `%d` as the negated number. */
  lemma NegativeIntAt(s: string, pos: nat, d: string)
    requires |d| >= 1 && forall i :: 0 <= i < |d| ==> '0' <= d[i] <= '9'
    requires pos < |s| && s[pos] == '-'
    requires TextAt(s, pos + 1, d) && pos + 1 + |d| < |s| && !IsDigit(s[pos + 1 + |d|])
    ensures ScanInt(s, pos) == Some((-(ParseDecimal(d) as int), pos + 1 + |d|))
  {
    TextAtIff(s, pos + 1, d);
    SkipSpaceOver(s, pos, pos);
    DigitsEndOver(s, pos + 1, pos + 1 + |d|);
    DigitsValueOf(s, pos + 1, d);
  }

  /** What "%d" prints scans back under `%d`, the sign included, when a
      character that is not a digit follows. */
  lemma ScanSignedDecimal(x: int, rest: string)
    requires |rest| > 0 && !IsDigit(rest[0])
    ensures ScanInt(SignedDecimal(x) + rest, 0) == Some((x, |SignedDecimal(x)|))
  {
    if x < 0 {
      ScanNegativeDecimal(-x, rest);
    } else {
      ScanDecimal(x, rest);
    }
  }

  /** The digits of n, then a character that is not a digit, scan under
      `%d` as n. */
  lemma ScanDecimal(n: nat, rest: string)
    requires |rest| > 0 && !IsDigit(rest[0])
    ensures ScanInt(Decimal(n) + rest, 0) == Some((n, |Decimal(n)|))
  {
    var d := Decimal(n);
    var s := d + rest;
    assert s[|d|] == rest[0];
    assert TextAt(s, 0, d) by {
      TextAtIff(s, 0, d);
    }
    IntAt(s, 0, d);
    DecimalRoundTrip(n);
  }

  /** A minus sign and the digits of n, then a character that is not a
      digit, scan under `%d` as -n. */
  lemma ScanNegativeDecimal(n: nat, rest: string)
    requires n > 0
    requires |rest| > 0 && !IsDigit(rest[0])
    ensures ScanInt("-" + Decimal(n) + rest, 0) == Some((-(n as int), 1 + |Decimal(n)|))
  {
    var d := Decimal(n);
    var s := "-" + d + rest;
    assert s[1 + |d|] == rest[0];
    assert TextAt(s, 1, d) by {
      TextAtIff(s, 1, d);
    }
    NegativeIntAt(s, 0, d);
    assert ScanInt(s, 0) == Some((-(ParseDecimal(d) as int), 1 + |d|));
    DecimalRoundTrip(n);
  }

  /** A minus sign and the digits of n, then a character that is not a
      digit, scan under `%lu` as n negated modulo 2^64. */
  lemma ScanNegativeNumber(n: nat, rest: string)
    requires 0 < n <= Pow2(64)
    requires |rest| > 0 && !IsDigit(rest[0])
    ensures ScanNumber("-" + Decimal(n) + rest, 0) == Some((Pow2(64) - n, 1 + |Decimal(n)|))
  {
    var s := "-" + Decimal(n) + rest;
    ScanNegativeDecimal(n, rest);
    NumberIsInt(s, 0);
    var r := ScanNumber(s, 0);
    assert r.value.0 == Pow2(64) - n;
    assert r == Some((r.value.0, r.value.1));
  }
}
