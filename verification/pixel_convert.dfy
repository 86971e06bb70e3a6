/** `pixelTypeConvertor<FROM, TO>`: conversion of one channel value between
    storage types, with the normalisation the specialisations apply.

    Floating-point values are reals (no rounding to a binary format);
    integer values are mathematical integers kept inside the range of
    their type, and every narrowing the C++ performs is written out as a
    wrap-around.
 */
module PixelConvert {
  import opened Numeric
  import opened Wrappers

  /** A channel type: an integral type of `size` bytes, signed or not, or a
      floating-point type of `size` bytes. */
  datatype SampleType = Integral(signed: bool, size: nat) | Floating(size: nat)

  const U8: SampleType := Integral(false, 1)
  const U16: SampleType := Integral(false, 2)
  const U32: SampleType := Integral(false, 4)
  const F32: SampleType := Floating(4)

  /** The fundamental types the convertor is instantiated with. */
  predicate ValidType(t: SampleType)
  {
    match t
    case Integral(_, n) => n == 1 || n == 2 || n == 4 || n == 8
    case Floating(n) => n == 4 || n == 8
  }

  /** A channel value: an integer or a real number. */
  datatype Sample = IntSample(i: int) | RealSample(x: real)

  /** `std::numeric_limits<T>::max()` of an integral type. */
  function MaxOf(t: SampleType): (m: nat)
    requires t.Integral? && t.size >= 1
    ensures m >= 1
  {
    if t.signed then Pow2(8 * t.size - 1) - 1 else Pow2(8 * t.size) - 1
  }

  /** `std::numeric_limits<T>::min()` of an integral type. */
  function MinOf(t: SampleType): (m: int)
    requires t.Integral? && t.size >= 1
    ensures m <= 0
  {
    if t.signed then -(Pow2(8 * t.size - 1) as int) else 0
  }

  /** v is a value of type t. */
  predicate Fits(t: SampleType, v: Sample)
  {
    match t
    case Integral(_, n) => n >= 1 && v.IntSample? && MinOf(t) <= v.i <= MaxOf(t)
    case Floating(_) => v.RealSample?
  }

  lemma {:induction false} Pow2Doubles(n: nat)
    requires n >= 1
    ensures Pow2(n) == 2 * Pow2(n - 1)
  {
  }

  /** The conversion of an integer to integral type t (modular, as C++20
      defines it and as the targets of this code behave): the value of t's
      range that differs from x by a multiple of 2^(8 * size). */
  function Wrap(t: SampleType, x: int): (r: int)
    requires t.Integral? && t.size >= 1
    ensures MinOf(t) <= r <= MaxOf(t)
    ensures Congruent(x, r, Pow2(8 * t.size))
    ensures MinOf(t) <= x <= MaxOf(t) ==> r == x
  {
    Pow2Doubles(8 * t.size);
    if t.signed then
      WrapSignedIsResidue(8 * t.size, x, WrapSigned(8 * t.size, x));
      WrapSigned(8 * t.size, x)
    else
      WrapUnsignedIsResidue(8 * t.size, x, WrapUnsigned(8 * t.size, x));
      WrapUnsigned(8 * t.size, x)
  }

  /** Wrap is characterised by its range and its residue: r is the
      conversion of x exactly when r is a value of t congruent to x modulo
      2^(8 * size), so a saturating or truncating cast would not meet it. */
  lemma WrapIsResidue(t: SampleType, x: int, r: int)
    requires t.Integral? && t.size >= 1
    ensures r == Wrap(t, x) <==> MinOf(t) <= r <= MaxOf(t) && Congruent(x, r, Pow2(8 * t.size))
  {
    if MinOf(t) <= r <= MaxOf(t) && Congruent(x, r, Pow2(8 * t.size)) {
      Pow2Doubles(8 * t.size);
      CongruentUnique(x, r, Wrap(t, x), MinOf(t), Pow2(8 * t.size));
    }
  }

  /** `sameType()`: the flag each specialisation returns. Only the
      floating-to-integral one answers true. */
  function SameTypeFlag(from: SampleType, to: SampleType): bool
  {
    from.Floating? && to.Integral?
  }

  /** The floating-to-integral specialisation: truncate src * max(TO).
      A value outside TO's range is undefined in C++ and gives None. */
  function FloatToInt(to: SampleType, x: real): (r: Option<int>)
    requires ValidType(to) && to.Integral?
    ensures r.Some? ==> MinOf(to) <= r.value <= MaxOf(to)
    ensures 0.0 <= x <= 1.0 ==> r.Some? && 0 <= r.value
  {
    var m := MaxOf(to);
    UnitTrunc(x, m);
    var t := Trunc(x * (m as real));
    if MinOf(to) <= t <= m then Some(t) else None
  }

  /** x in [0, 1] times m truncates into [0, m]. */
  lemma UnitTrunc(x: real, m: nat)
    ensures 0.0 <= x <= 1.0 ==> 0 <= Trunc(x * (m as real)) <= m
  {
    UnitScale(x, m as real);
    TruncRange(x * (m as real), m);
  }

  /** x in [0, 1] scales into [0, m]. */
  lemma UnitScale(x: real, m: real)
    requires m >= 0.0
    ensures 0.0 <= x <= 1.0 ==> 0.0 <= x * m <= m
  {
    if 0.0 <= x <= 1.0 {
      assert m - x * m == (1.0 - x) * m;
    }
  }

  /** The integral-to-floating specialisation: src / max(FROM). */
  function IntToFloat(from: SampleType, i: int): (r: real)
    requires ValidType(from) && from.Integral?
    requires MinOf(from) <= i <= MaxOf(from)
    ensures r <= 1.0
    ensures i >= 0 ==> 0.0 <= r
  {
    var m := MaxOf(from) as real;
    DivideByPositive(i as real, m);
    i as real / m
  }

  /** Real division by a positive m: multiplying back gives the dividend,
      a dividend up to m gives at most 1, m itself gives 1, and the sign is
      kept. */
  lemma DivideByPositive(a: real, m: real)
    requires m > 0.0
    ensures (a / m) * m == a
    ensures a <= m ==> a / m <= 1.0
    ensures a == m ==> a / m == 1.0
    ensures 0.0 <= a ==> 0.0 <= a / m
  {
    var q := a / m;
    assert q * m == a;
    ScaleCompare(q, m);
  }

  lemma ScaleCompare(q: real, m: real)
    requires m > 0.0
    ensures q * m <= m ==> q <= 1.0
    ensures q * m == m ==> q == 1.0
    ensures 0.0 <= q * m ==> 0.0 <= q
  {
  }

  /** The integral-to-integral specialisation: shift left, or
      arithmetically right, by the difference of the two types' sizes in
      BYTES, then convert to TO. The result is TO's residue of i times, or
      floor-divided by, 2 to that difference; the shift of a negative value
      that `Convert` rules out is given its C++20 value here. */
  function IntToInt(from: SampleType, to: SampleType, i: int): (r: int)
    requires ValidType(from) && ValidType(to) && from.Integral? && to.Integral?
    ensures MinOf(to) <= r <= MaxOf(to)
    ensures to.size > from.size ==> Congruent(i * Pow2(to.size - from.size), r, Pow2(8 * to.size))
    ensures to.size <= from.size ==> Congruent(i / Pow2(from.size - to.size), r, Pow2(8 * to.size))
  {
    if to.size > from.size then
      var p, m := Pow2(to.size - from.size), Pow2(8 * to.size);
      var w := Wrap(to, i);
      CongruentScale(i, w, m, p);
      CongruentTrans(i * p, w * p, Wrap(to, w * p), m);
      Wrap(to, w * p)
    else Wrap(to, i / Pow2(from.size - to.size))
  }

  /** The mathematical value the shift stands for: i times 2 to the size
      difference when widening, i divided by it, rounded down, otherwise. */
  function Shifted(from: SampleType, to: SampleType, i: int): int
  {
    if to.size > from.size then i * Pow2(to.size - from.size) else i / Pow2(from.size - to.size)
  }

  /** The integral conversion is the value of TO's range congruent to the
      shifted value modulo 2^(8 * size of TO), and no other. */
  lemma IntToIntIsResidue(from: SampleType, to: SampleType, i: int, r: int)
    requires ValidType(from) && ValidType(to) && from.Integral? && to.Integral?
    ensures r == IntToInt(from, to, i) <==>
            MinOf(to) <= r <= MaxOf(to) && Congruent(Shifted(from, to, i), r, Pow2(8 * to.size))
  {
    if MinOf(to) <= r <= MaxOf(to) && Congruent(Shifted(from, to, i), r, Pow2(8 * to.size)) {
      Pow2Doubles(8 * to.size);
      CongruentUnique(Shifted(from, to, i), r, IntToInt(from, to, i), MinOf(to), Pow2(8 * to.size));
    }
  }

  /** Widening to a larger type of the same signedness multiplies the value
      by 2 to the difference in bytes, exactly: nothing wraps. */
  lemma WidenShiftsByBytes(a: SampleType, b: SampleType, i: int)
    requires ValidType(a) && ValidType(b) && a.Integral? && b.Integral?
    requires a.signed == b.signed && a.size < b.size
    requires MinOf(a) <= i <= MaxOf(a)
    ensures IntToInt(a, b, i) == i * Pow2(b.size - a.size)
  {
    WidenFits(a, b, i);
    SizeBounds(a, b);
  }

  /** Narrowing divides by 2 to the difference in bytes, rounding down,
      and keeps the quotient whenever it is a value of the narrower type. */
  lemma NarrowShiftsByBytes(a: SampleType, b: SampleType, i: int)
    requires ValidType(a) && ValidType(b) && a.Integral? && b.Integral?
    requires b.size <= a.size
    requires MinOf(b) <= i / Pow2(a.size - b.size) <= MaxOf(b)
    ensures IntToInt(a, b, i) == i / Pow2(a.size - b.size)
  {
  }

  /** The widening shift `(TO)src << d` is undefined before C++20 when TO
      is signed and the value is negative (a shift by 0 is not a widening). */
  predicate ShiftUndefined(from: SampleType, to: SampleType, i: int)
  {
    to.Integral? && to.signed && to.size > from.size && i < 0
  }

  /** `operator()(src)`, choosing the specialisation the C++ selects; the
      floating-to-floating case is a plain cast. */
  function Convert(from: SampleType, to: SampleType, v: Sample): (r: Option<Sample>)
    requires ValidType(from) && ValidType(to) && Fits(from, v)
    ensures r.Some? ==> Fits(to, r.value)
    ensures from.Floating? && to.Integral? && 0.0 <= v.x <= 1.0 ==> r.Some?
    ensures to.Floating? ==> r.Some?
    ensures from.Integral? && to.Integral? ==> (r.Some? <==> !ShiftUndefined(from, to, v.i))
  {
    match (from, to)
    case (Floating(_), Integral(_, _)) =>
      (match FloatToInt(to, v.x)
       case Some(t) => Some(IntSample(t))
       case None => None)
    case (Integral(_, _), Floating(_)) =>
      Some(RealSample(IntToFloat(from, v.i)))
    case (Integral(_, _), Integral(_, _)) =>
      if ShiftUndefined(from, to, v.i) then None else Some(IntSample(IntToInt(from, to, v.i)))
    case (Floating(_), Floating(_)) =>
      Some(v)
  }

  /** `Convert` as a total function for use as a kernel parameter: a value
      that is not of the source type converts to None. */
  function ConvertChecked(from: SampleType, to: SampleType, v: Sample): (r: Option<Sample>)
    ensures r.Some? ==> Fits(to, r.value)
  {
    if ValidType(from) && ValidType(to) && Fits(from, v) then Convert(from, to, v) else None
  }

  /** `ConvertChecked` with its two types fixed, as the kernels take it. */
  function Converter(from: SampleType, to: SampleType): (f: Sample -> Option<Sample>)
    ensures forall v :: f(v) == ConvertChecked(from, to, v)
  {
    v => ConvertChecked(from, to, v)
  }

  /** Converting a value to its own type gives it back: integral types go
      through a shift by zero, floating types through the plain cast. */
  lemma ConvertSameType(t: SampleType, v: Sample)
    requires ValidType(t) && Fits(t, v)
    ensures Convert(t, t, v) == Some(v)
    ensures ConvertChecked(t, t, v) == Some(v)
  {
  }

  /** `sameType()` is false for identical types and true exactly for a
      floating source with an integral target. */
  lemma SameTypeFlagMeaning(t: SampleType)
    ensures !SameTypeFlag(t, t)
    ensures SameTypeFlag(F32, U8) && !SameTypeFlag(U8, F32) && !SameTypeFlag(U8, U16)
  {
  }

  lemma {:induction false} Pow2Mono(a: nat, b: nat)
    requires a <= b
    ensures Pow2(a) <= Pow2(b)
  {
    if a < b {
      Pow2Mono(a, b - 1);
    }
  }

  /** The widened value of v fits the wider type: |v * 2^d| stays below
      the wider bound when d is at most the difference in bits. */
  lemma WidenFits(a: SampleType, b: SampleType, v: int)
    requires ValidType(a) && ValidType(b) && a.Integral? && b.Integral?
    requires a.signed == b.signed && a.size < b.size
    requires MinOf(a) <= v <= MaxOf(a)
    ensures MinOf(b) <= v * Pow2(b.size - a.size) <= MaxOf(b)
  {
    var d := b.size - a.size;
    var ka := if a.signed then 8 * a.size - 1 else 8 * a.size;
    var kb := if b.signed then 8 * b.size - 1 else 8 * b.size;
    Pow2Add(ka, d);
    Pow2Mono(ka + d, kb);
    var lo := if a.signed then -(Pow2(ka) as int) else 0;
    ScaleBound(v, lo, Pow2(ka), Pow2(d), Pow2(kb));
  }

  /** lo <= v < top scales by p into [lo * p, top * p), inside [-lim, lim)
      when top * p <= lim and lo is 0 or -top. */
  lemma ScaleBound(v: int, lo: int, top: int, p: int, lim: int)
    requires lo <= v < top && p >= 1 && top * p <= lim
    requires lo == 0 || lo == -top
    ensures lo * p <= v * p < lim
    ensures lo == 0 ==> 0 <= v * p
    ensures lo == -top ==> -lim <= v * p
  {
    MulStrict(v, top, p);
    if lo < v {
      MulStrict(lo, v, p);
    }
  }

  lemma MulStrict(x: int, y: int, p: nat)
    requires x < y && p >= 1
    ensures x * p < y * p
    ensures x >= 0 ==> x * p >= 0
  {
  }

  /** Multiplying by a positive p and dividing by it again is the identity. */
  lemma DivMul(i: int, p: int)
    requires p >= 1
    ensures (i * p) / p == i
  {
    var q := (i * p) / p;
    var r := (i * p) % p;
    assert q * p + r == i * p;
    assert (q - i) * p == -r;
    if q > i {
      MulAtLeast(q - i, p);
    } else if q < i {
      assert (i - q) * p == r;
      MulAtLeast(i - q, p);
    }
  }

  lemma {:induction false} MulAtLeast(k: int, p: int)
    requires k >= 1 && p >= 1
    ensures k * p >= p
  {
    if k > 1 {
      MulAtLeast(k - 1, p);
      assert k * p == (k - 1) * p + p;
    }
  }

  /** Widening an integer channel to a larger type of the same signedness
      and narrowing it back gives the original value; only a negative
      value widened to a signed type has no defined result. */
  lemma WidenNarrowRoundTrip(a: SampleType, b: SampleType, v: Sample)
    requires ValidType(a) && ValidType(b) && a.Integral? && b.Integral?
    requires a.signed == b.signed && a.size < b.size
    requires Fits(a, v)
    ensures Convert(a, b, v).None? <==> a.signed && v.i < 0
    ensures Convert(a, b, v).Some? ==> Convert(b, a, Convert(a, b, v).value) == Some(v)
  {
    WidenNarrow(a, b, v.i);
  }

  lemma WidenNarrow(a: SampleType, b: SampleType, i: int)
    requires ValidType(a) && ValidType(b) && a.Integral? && b.Integral?
    requires a.signed == b.signed && a.size < b.size
    requires MinOf(a) <= i <= MaxOf(a)
    ensures IntToInt(b, a, IntToInt(a, b, i)) == i
  {
    var p := Pow2(b.size - a.size);
    WidenFits(a, b, i);
    SizeBounds(a, b);
    assert Wrap(b, i) == i;
    var w := i * p;
    assert IntToInt(a, b, i) == w;
    DivMul(i, p);
  }

  lemma SizeBounds(a: SampleType, b: SampleType)
    requires ValidType(a) && ValidType(b) && a.Integral? && b.Integral?
    requires a.signed == b.signed && a.size < b.size
    ensures MinOf(b) <= MinOf(a) && MaxOf(a) <= MaxOf(b)
  {
    if a.signed {
      Pow2Mono(8 * a.size - 1, 8 * b.size - 1);
    } else {
      Pow2Mono(8 * a.size, 8 * b.size);
    }
  }

  /** The integer shift is by the difference in bytes, not bits: 8-bit
      255 becomes 510 in 16 bits, not 65535, and 16-bit 65535 becomes 255
      in 8 bits only because 32767 wraps to 255. */
  lemma ByteShiftNotRescale()
    ensures Convert(U8, U16, IntSample(255)) == Some(IntSample(510))
    ensures Convert(U16, U8, IntSample(65535)) == Some(IntSample(255))
    ensures Convert(U16, U8, IntSample(256)) == Some(IntSample(128))
    ensures Convert(Integral(true, 1), Integral(true, 2), IntSample(-1)) == None
  {
    assert Pow2(8) == 256;
    assert Pow2(16) == 65536;
  }

  /** An integral value becomes a real no greater than 1; a non-negative
      one lands in [0, 1], and the maximum of the type maps to 1. */
  lemma IntToFloatRange(from: SampleType, to: SampleType, v: Sample)
    requires ValidType(from) && ValidType(to) && from.Integral? && to.Floating? && Fits(from, v)
    ensures Convert(from, to, v).Some? && Convert(from, to, v).value.RealSample?
    ensures Convert(from, to, v).value.x <= 1.0
    ensures v.i >= 0 ==> 0.0 <= Convert(from, to, v).value.x
    ensures v.i == MaxOf(from) ==> Convert(from, to, v).value.x == 1.0
  {
    assert Convert(from, to, v).value.x == IntToFloat(from, v.i);
    if v.i == MaxOf(from) {
      IntToFloatMax(from);
    }
  }

  lemma IntToFloatMax(from: SampleType)
    requires ValidType(from) && from.Integral?
    ensures IntToFloat(from, MaxOf(from)) == 1.0
  {
    var m := MaxOf(from) as real;
    DivideByPositive(m, m);
  }

  /** A normalised real in [0, 1] becomes an integer in [0, max]; 0 maps
      to 0 and 1 to the maximum. */
  lemma FloatToIntUnitRange(from: SampleType, to: SampleType, v: Sample)
    requires ValidType(from) && ValidType(to) && from.Floating? && to.Integral? && Fits(from, v)
    requires 0.0 <= v.x <= 1.0
    ensures Convert(from, to, v).Some?
    ensures 0 <= Convert(from, to, v).value.i <= MaxOf(to)
    ensures v.x == 0.0 ==> Convert(from, to, v).value.i == 0
    ensures v.x == 1.0 ==> Convert(from, to, v).value.i == MaxOf(to)
  {
    assert Convert(from, to, v).value.i == FloatToInt(to, v.x).value;
  }

  /** Normalising an integer to a real and scaling it back to the same
      integral type gives the integer back. */
  lemma IntFloatRoundTrip(from: SampleType, via: SampleType, v: Sample)
    requires ValidType(from) && ValidType(via) && from.Integral? && via.Floating? && Fits(from, v)
    ensures Convert(from, via, v).Some?
    ensures Convert(via, from, Convert(from, via, v).value) == Some(v)
  {
    var m := MaxOf(from) as real;
    var x := IntToFloat(from, v.i);
    DivideByPositive(v.i as real, m);
    FloatToIntOf(from, x, v.i);
    assert Convert(from, via, v) == Some(RealSample(x));
    assert Convert(via, from, RealSample(x)) == Some(IntSample(v.i));
  }

  /** A real that scales exactly onto an integer of the type converts to
      that integer. */
  lemma FloatToIntOf(to: SampleType, x: real, i: int)
    requires ValidType(to) && to.Integral? && MinOf(to) <= i <= MaxOf(to)
    requires x * (MaxOf(to) as real) == i as real
    ensures FloatToInt(to, x) == Some(i)
  {
    TruncOfInt(i);
  }
}
