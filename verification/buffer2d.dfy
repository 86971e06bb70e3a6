/** The owning two-dimensional pixel container `buffer2d<T>`.

    A buffer is a row-major array of `width * height` elements. Allocation
    collapses any zero dimension to the empty state (both dimensions 0, no
    storage). In-place C++ members become functions or methods that return
    the updated buffer.
 */
module Buffer2D {
  import opened Wrappers
  import opened Numeric

  datatype Buffer<T> = Buffer(width: nat, height: nat, data: seq<T>)

  /** Storage holds exactly width*height elements. */
  predicate Valid<T>(b: Buffer<T>)
  {
    |b.data| == b.width * b.height
  }

  /** Both dimensions are zero or both are positive; every allocation
      establishes this, `remap` can break it. */
  predicate Normal<T>(b: Buffer<T>)
  {
    b.width == 0 <==> b.height == 0
  }

  /** The value `size()` reports. */
  function Size<T>(b: Buffer<T>): nat
  {
    |b.data|
  }

  /** The value `empty()` reports. */
  predicate Empty<T>(b: Buffer<T>)
  {
    b.width == 0 || b.height == 0
  }

  /** A valid buffer is empty exactly when it holds no elements. */
  lemma EmptyIffNoElements<T>(b: Buffer<T>)
    requires Valid(b)
    ensures Empty(b) <==> Size(b) == 0
    ensures Size(b) == b.width * b.height
  {
    if b.width > 0 && b.height > 0 {
      assert b.width * b.height >= b.height by { MulMono(b.width, b.height); }
    }
  }

  lemma MulMono(a: nat, b: nat)
    requires a >= 1
    ensures a * b >= b
  {
  }

  ////////////////
  // Allocation //
  ////////////////

  /** How `_allocate` fills fresh storage: with default-constructed
      elements (`blank` stands for them) or by copying from a source range.
      For a fundamental T, `new T[_size]` leaves the elements indeterminate,
      and `blank` then stands for whatever values they hold. */
  datatype Init<T> = Blank(blank: T) | CopyOf(source: seq<T>)

  /** `_allocate(width, height, init)`: a zero area gives the empty buffer,
      otherwise width*height elements taken from `init`. */
  function Allocate<T>(w: nat, h: nat, init: Init<T>): (b: Buffer<T>)
    requires init.CopyOf? && w * h > 0 ==> |init.source| >= w * h
    ensures Valid(b) && Normal(b)
    ensures w * h == 0 ==> b.width == 0 && b.height == 0 && Size(b) == 0
    ensures w * h != 0 ==> b.width == w && b.height == h && Size(b) == w * h
    ensures init.CopyOf? ==> forall i :: 0 <= i < Size(b) ==> b.data[i] == init.source[i]
    ensures init.Blank? ==> forall i :: 0 <= i < Size(b) ==> b.data[i] == init.blank
  {
    if w * h == 0 then Buffer(0, 0, [])
    else
      match init
      case Blank(x) => Buffer(w, h, seq(w * h, _ => x))
      case CopyOf(src) => Buffer(w, h, src[..w * h])
  }

  /** `_deallocate`: storage released, every dimension reset. */
  function Deallocate<T>(b: Buffer<T>): (r: Buffer<T>)
    ensures r.width == 0 && r.height == 0 && Size(r) == 0
    ensures Valid(r) && Normal(r) && Empty(r)
  {
    Buffer(0, 0, [])
  }

  /** The copy constructor: a fresh allocation copying the source elements. */
  function Copy<T>(b: Buffer<T>): (r: Buffer<T>)
    requires Valid(b)
    ensures Valid(r) && Normal(r)
    ensures Normal(b) ==> r == b
  {
    var r := Allocate(b.width, b.height, CopyOf(b.data));
    assert Normal(b) ==> r.data == b.data;
    r
  }

  /** `resize(w, h)`: swap with a freshly allocated buffer; the old
      contents are dropped. */
  function Resize<T>(b: Buffer<T>, w: nat, h: nat, blank: T): (r: Buffer<T>)
    ensures Valid(r) && Normal(r)
    ensures r.width == Allocate(w, h, Blank(blank)).width
    ensures r.height == Allocate(w, h, Blank(blank)).height
    ensures forall i :: 0 <= i < Size(r) ==> r.data[i] == blank
  {
    Allocate(w, h, Blank(blank))
  }

  /** Nothing of the old contents survives a resize. */
  lemma ResizeForgetsContents<T>(a: Buffer<T>, b: Buffer<T>, w: nat, h: nat, blank: T)
    ensures Resize(a, w, h, blank) == Resize(b, w, h, blank)
  {
  }

  ////////////
  // Access //
  ////////////

  /** Linear offset of element (x, y): rows are stored one after the other. */
  function Index(width: nat, x: nat, y: nat): nat
  {
    y * width + x
  }

  lemma {:induction false} IndexInRange(width: nat, height: nat, x: nat, y: nat)
    requires x < width && y < height
    ensures Index(width, x, y) < width * height
  {
    assert y * width + width == (y + 1) * width;
    assert (y + 1) * width <= height * width by { MulLe(y + 1, height, width); }
  }

  /** `operator()(x, y)`; out-of-range access is undefined in the source. */
  function At<T>(b: Buffer<T>, x: nat, y: nat): T
    requires Valid(b) && x < b.width && y < b.height
  {
    IndexInRange(b.width, b.height, x, y);
    b.data[Index(b.width, x, y)]
  }

  /** Writing through the reference `operator()(x, y)` returns. */
  function Put<T>(b: Buffer<T>, x: nat, y: nat, v: T): (r: Buffer<T>)
    requires Valid(b) && x < b.width && y < b.height
    ensures Valid(r) && r.width == b.width && r.height == b.height
  {
    IndexInRange(b.width, b.height, x, y);
    Buffer(b.width, b.height, b.data[Index(b.width, x, y) := v])
  }

  /** Row-major layout: every stored element is reached by exactly one
      coordinate pair, the one with y = i / width and x = i % width. */
  lemma RowMajorLayout<T>(b: Buffer<T>, i: nat)
    requires Valid(b) && i < Size(b)
    ensures b.width > 0 && i % b.width < b.width && i / b.width < b.height
    ensures At(b, i % b.width, i / b.width) == b.data[i]
  {
    var w := b.width;
    assert w > 0;
    var x, y := i % w, i / w;
    assert i == y * w + x;
    assert y < b.height by {
      if y >= b.height {
        MulLe(b.height, y, w);
      }
    }
  }

  /** Two coordinate pairs inside the buffer never share an offset. */
  lemma IndexInjective(width: nat, x1: nat, y1: nat, x2: nat, y2: nat)
    requires x1 < width && x2 < width
    requires Index(width, x1, y1) == Index(width, x2, y2)
    ensures x1 == x2 && y1 == y2
  {
    if y1 < y2 {
      MulLe(y1 + 1, y2, width);
    } else if y2 < y1 {
      MulLe(y2 + 1, y1, width);
    }
  }

  /** Writing (x, y) changes what (x, y) reads and nothing else. */
  lemma AtPut<T>(b: Buffer<T>, x: nat, y: nat, v: T, x2: nat, y2: nat)
    requires Valid(b) && x < b.width && y < b.height && x2 < b.width && y2 < b.height
    ensures At(Put(b, x, y, v), x2, y2) == if x2 == x && y2 == y then v else At(b, x2, y2)
  {
    var i, j := Index(b.width, x, y), Index(b.width, x2, y2);
    IndexInRange(b.width, b.height, x, y);
    IndexInRange(b.width, b.height, x2, y2);
    assert At(Put(b, x, y, v), x2, y2) == b.data[i := v][j];
    if i == j {
      IndexInjective(b.width, x, y, x2, y2);
    }
  }

  ////////////////////////////
  // Elementwise operations //
  ////////////////////////////

  /** Buffer with the given dimensions built as a fresh allocation would
      build it: a zero area collapses to the empty state. */
  function Fresh<T>(w: nat, h: nat, data: seq<T>): (r: Buffer<T>)
    requires |data| == w * h
    ensures Valid(r) && Normal(r) && r.data == data
    ensures w * h != 0 ==> r.width == w && r.height == h
  {
    if w * h == 0 then Buffer(0, 0, []) else Buffer(w, h, data)
  }

  function MapSeq<T>(s: seq<T>, op: T -> T): (r: seq<T>)
    ensures |r| == |s|
  {
    seq(|s|, i requires 0 <= i < |s| => op(s[i]))
  }

  function ZipSeq<T>(s: seq<T>, t: seq<T>, op: (T, T) -> T): (r: seq<T>)
    requires |s| == |t|
    ensures |r| == |s|
  {
    seq(|s|, i requires 0 <= i < |s| => op(s[i], t[i]))
  }

  /** The const unary `operation(op)`: a new buffer of the same
      dimensions with `op` applied to every element. */
  function UnaryOperation<T>(b: Buffer<T>, op: T -> T): (r: Buffer<T>)
    requires Valid(b)
    ensures Valid(r) && Size(r) == Size(b)
    ensures Normal(b) ==> r.width == b.width && r.height == b.height
    ensures forall i :: 0 <= i < Size(r) ==> r.data[i] == op(b.data[i])
  {
    Fresh(b.width, b.height, MapSeq(b.data, op))
  }

  /** The in-place unary `operation(op)`: `std::transform` over the
      storage, writing back into it. */
  method UnaryOperationInPlace<T>(b: Buffer<T>, op: T -> T) returns (r: Buffer<T>)
    requires Valid(b)
    ensures Valid(r) && r.width == b.width && r.height == b.height
    ensures forall i :: 0 <= i < Size(r) ==> r.data[i] == op(b.data[i])
  {
    var d := b.data;
    var i := 0;
    while i < |d|
      invariant |d| == |b.data|
      invariant 0 <= i <= |d|
      invariant forall j :: 0 <= j < i ==> d[j] == op(b.data[j])
      invariant forall j :: i <= j < |d| ==> d[j] == b.data[j]
    {
      d := d[i := op(d[i])];
      i := i + 1;
    }
    r := Buffer(b.width, b.height, d);
  }

  /** `_checkSize`: both dimensions must agree. */
  predicate SameSize<T>(a: Buffer<T>, b: Buffer<T>)
  {
    a.width == b.width && a.height == b.height
  }

  /** The const binary `operation(b, op)`: throws `buffer2dIllegalSize`
      when the dimensions differ, else a new buffer with
      r[i] = op(a[i], b[i]); neither operand changes. */
  function BinaryOperation<T>(a: Buffer<T>, b: Buffer<T>, op: (T, T) -> T): (r: Result<Buffer<T>>)
    requires Valid(a) && Valid(b)
    ensures r.Fail? <==> !SameSize(a, b)
    ensures r.Fail? ==> r.error == IllegalSize
    ensures r.Ok? ==> Valid(r.value) && Size(r.value) == Size(a)
    ensures r.Ok? && Normal(a) ==> SameSize(r.value, a)
    ensures r.Ok? ==> forall i :: 0 <= i < Size(r.value) ==> r.value.data[i] == op(a.data[i], b.data[i])
  {
    if !SameSize(a, b) then Fail(IllegalSize)
    else Ok(Fresh(a.width, a.height, ZipSeq(a.data, b.data, op)))
  }

  /** The in-place binary `operation(b, op)`: after the size check,
      this[i] = op(this[i], b[i]); `b` is only read. */
  method BinaryOperationInPlace<T>(a: Buffer<T>, b: Buffer<T>, op: (T, T) -> T) returns (r: Result<Buffer<T>>)
    requires Valid(a) && Valid(b)
    ensures r.Fail? <==> !SameSize(a, b)
    ensures r.Fail? ==> r.error == IllegalSize
    ensures r.Ok? ==> Valid(r.value) && SameSize(r.value, a)
    ensures r.Ok? ==> forall i :: 0 <= i < Size(r.value) ==> r.value.data[i] == op(a.data[i], b.data[i])
  {
    if !SameSize(a, b) {
      return Fail(IllegalSize);
    }
    var d := a.data;
    var i := 0;
    while i < |d|
      invariant |d| == |a.data| == |b.data|
      invariant 0 <= i <= |d|
      invariant forall j :: 0 <= j < i ==> d[j] == op(a.data[j], b.data[j])
      invariant forall j :: i <= j < |d| ==> d[j] == a.data[j]
    {
      d := d[i := op(d[i], b.data[i])];
      i := i + 1;
    }
    r := Ok(Buffer(a.width, a.height, d));
  }

  ////////////////////////////////////
  // Arithmetic on integer elements //
  ////////////////////////////////////

  function Add(a: Buffer<int>, b: Buffer<int>): Result<Buffer<int>>
    requires Valid(a) && Valid(b)
  {
    BinaryOperation(a, b, (x, y) => x + y)
  }

  function Sub(a: Buffer<int>, b: Buffer<int>): Result<Buffer<int>>
    requires Valid(a) && Valid(b)
  {
    BinaryOperation(a, b, (x, y) => x - y)
  }

  function Mul(a: Buffer<int>, b: Buffer<int>): Result<Buffer<int>>
    requires Valid(a) && Valid(b)
  {
    BinaryOperation(a, b, (x, y) => x * y)
  }

  /** Division of buffers; a zero divisor is undefined for integer
      elements, so the caller must exclude it when the sizes agree. */
  function Div(a: Buffer<int>, b: Buffer<int>): Result<Buffer<int>>
    requires Valid(a) && Valid(b)
    requires SameSize(a, b) ==> forall i :: 0 <= i < Size(b) ==> b.data[i] != 0
  {
    // the y == 0 arm is never taken under the precondition
    BinaryOperation(a, b, (x, y) => if y == 0 then 0 else CDiv(x, y))
  }

  function Negate(b: Buffer<int>): Buffer<int>
    requires Valid(b)
  {
    UnaryOperation(b, x => -x)
  }

  function AddScalar(b: Buffer<int>, s: int): Buffer<int>
    requires Valid(b)
  {
    UnaryOperation(b, x => x + s)
  }

  function SubScalar(b: Buffer<int>, s: int): Buffer<int>
    requires Valid(b)
  {
    UnaryOperation(b, x => x - s)
  }

  function MulScalar(b: Buffer<int>, s: int): Buffer<int>
    requires Valid(b)
  {
    UnaryOperation(b, x => x * s)
  }

  function DivScalar(b: Buffer<int>, s: int): Buffer<int>
    requires Valid(b) && s != 0
  {
    UnaryOperation(b, x => CDiv(x, s))
  }

  /** The friend `operator*(s, b)`, defined as `b * s`: it scales every
      element by s from the left as well. */
  function ScalarTimes(s: int, b: Buffer<int>): (r: Buffer<int>)
    requires Valid(b)
    ensures Valid(r) && Size(r) == Size(b)
    ensures forall i :: 0 <= i < Size(r) ==> r.data[i] == s * b.data[i]
  {
    MulScalar(b, s)
  }

  /** `Abs()`: in place, every element replaced by its absolute value.
      The member is declared `void` yet returns the result of the in-place
      `operation`, which a compiler rejects once `Abs` is used; this is the
      evident intent. */
  function AbsAll(b: Buffer<int>): (r: Buffer<int>)
    requires Valid(b)
    ensures Valid(r) && SameSize(r, b)
    ensures forall i :: 0 <= i < Size(r) ==> r.data[i] >= 0 && (r.data[i] == b.data[i] || r.data[i] == -b.data[i])
  {
    Buffer(b.width, b.height, MapSeq(b.data, x => Abs(x)))
  }

  /** Adding and then subtracting the same buffer gives the original back. */
  lemma AddSubCancel(a: Buffer<int>, b: Buffer<int>)
    requires Valid(a) && Valid(b) && Normal(a) && SameSize(a, b)
    ensures Add(a, b).Ok?
    ensures Valid(Add(a, b).value)
    ensures Sub(Add(a, b).value, b) == Ok(a)
  {
    var s := Add(a, b).value;
    var d := Sub(s, b).value;
    assert d.data == a.data;
  }

  /** Element i of each operator's result is the C++ operator applied to
      element i of the operands: `std::negate`, `std::plus`, `std::minus`,
      `std::multiplies` and the truncating `std::divides`, bound to the
      scalar or zipped with the other buffer. Adding a scalar and then
      subtracting it gives the elements back. */
  lemma OperatorsElementwise(a: Buffer<int>, b: Buffer<int>, s: int, i: int)
    requires Valid(a) && Valid(b) && 0 <= i < Size(a)
    ensures Negate(a).data[i] == -a.data[i]
    ensures AddScalar(a, s).data[i] == a.data[i] + s && SubScalar(a, s).data[i] == a.data[i] - s
    ensures MulScalar(a, s).data[i] == a.data[i] * s
    ensures s != 0 ==> DivScalar(a, s).data[i] == CDiv(a.data[i], s)
    ensures SubScalar(AddScalar(a, s), s).data == a.data
    ensures SameSize(a, b) ==>
              Add(a, b).value.data[i] == a.data[i] + b.data[i] &&
              Sub(a, b).value.data[i] == a.data[i] - b.data[i] &&
              Mul(a, b).value.data[i] == a.data[i] * b.data[i]
    ensures SameSize(a, b) && (forall j :: 0 <= j < Size(b) ==> b.data[j] != 0) ==>
              Div(a, b).value.data[i] == CDiv(a.data[i], b.data[i])
  {
    var t := SubScalar(AddScalar(a, s), s);
    assert |t.data| == |a.data|;
  }

  /** Every buffer-buffer operator fails with `buffer2dIllegalSize` exactly
      when the dimensions differ. */
  lemma OperatorsCheckSize(a: Buffer<int>, b: Buffer<int>)
    requires Valid(a) && Valid(b)
    requires SameSize(a, b) ==> forall i :: 0 <= i < Size(b) ==> b.data[i] != 0
    ensures !SameSize(a, b) ==> Add(a, b) == Sub(a, b) == Mul(a, b) == Div(a, b) == Fail(IllegalSize)
    ensures SameSize(a, b) ==> Add(a, b).Ok? && Sub(a, b).Ok? && Mul(a, b).Ok? && Div(a, b).Ok?
  {
  }

  /////////////
  // Methods //
  /////////////

  /** `clear(s)`: every element becomes s. */
  function Clear<T>(b: Buffer<T>, s: T): (r: Buffer<T>)
    requires Valid(b)
    ensures Valid(r) && SameSize(r, b)
    ensures forall i :: 0 <= i < Size(r) ==> r.data[i] == s
  {
    Buffer(b.width, b.height, seq(|b.data|, _ => s))
  }

  /** `max()`: `*std::max_element`, undefined on an empty buffer. */
  function MaxElement(s: seq<int>): (m: int)
    requires |s| > 0
    ensures m in s
    ensures forall i :: 0 <= i < |s| ==> s[i] <= m
  {
    if |s| == 1 then s[0]
    else
      var rest := MaxElement(s[1..]);
      assert forall i :: 1 <= i < |s| ==> s[i] == s[1..][i - 1];
      if s[0] >= rest then s[0] else rest
  }

  /** `min()`: `*std::min_element`, undefined on an empty buffer. */
  function MinElement(s: seq<int>): (m: int)
    requires |s| > 0
    ensures m in s
    ensures forall i :: 0 <= i < |s| ==> m <= s[i]
  {
    if |s| == 1 then s[0]
    else
      var rest := MinElement(s[1..]);
      assert forall i :: 1 <= i < |s| ==> s[i] == s[1..][i - 1];
      if s[0] <= rest then s[0] else rest
  }

  function Max(b: Buffer<int>): int
    requires Valid(b) && Size(b) > 0
  {
    MaxElement(b.data)
  }

  function Min(b: Buffer<int>): int
    requires Valid(b) && Size(b) > 0
  {
    MinElement(b.data)
  }

  /** `swap(a, b)`: dimensions and storage change places. */
  function Swap<T>(a: Buffer<T>, b: Buffer<T>): (r: (Buffer<T>, Buffer<T>))
    ensures r.0.width == b.width && r.0.height == b.height && r.0.data == b.data
    ensures r.1.width == a.width && r.1.height == a.height && r.1.data == a.data
  {
    (b, a)
  }

  /** `operator=`: assigning a buffer to itself (`aliased`) changes nothing;
      otherwise the target becomes a fresh copy of the source. */
  function Assign<T>(target: Buffer<T>, source: Buffer<T>, aliased: bool): (r: Buffer<T>)
    requires Valid(target) && Valid(source)
    requires aliased ==> target == source
    ensures aliased ==> r == target
    ensures Valid(r) && Size(r) == Size(source)
    ensures Normal(source) ==> r == source
  {
    if aliased then target else Swap(target, Copy(source)).0
  }

  ///////////
  // remap //
  ///////////

  /** The raw storage of a sequence of elements, each element laid out
      as the bytes `encode` gives it. */
  function RawBytes<T>(s: seq<T>, encode: T -> seq<Byte>): seq<Byte>
  {
    if |s| == 0 then [] else encode(s[0]) + RawBytes(s[1..], encode)
  }

  lemma {:induction false} RawBytesLength<T>(s: seq<T>, encode: T -> seq<Byte>, k: nat)
    requires forall x :: |encode(x)| == k
    ensures |RawBytes(s, encode)| == |s| * k
  {
    if |s| > 0 {
      RawBytesLength(s[1..], encode, k);
    }
  }

  /** Element i occupies bytes [i*k, (i+1)*k) of the raw storage. */
  lemma {:induction false} RawBytesSlice<T>(s: seq<T>, encode: T -> seq<Byte>, k: nat, i: nat)
    requires forall x :: |encode(x)| == k
    requires i < |s|
    ensures |RawBytes(s, encode)| == |s| * k
    ensures i * k + k <= |s| * k
    ensures RawBytes(s, encode)[i * k .. i * k + k] == encode(s[i])
  {
    RawBytesLength(s, encode, k);
    MulLe(i + 1, |s|, k);
    assert (i + 1) * k == i * k + k;
    if i > 0 {
      RawBytesSlice(s[1..], encode, k, i - 1);
      RawBytesLength(s[1..], encode, k);
      assert i * k == k + (i - 1) * k;
      assert s[1..][i - 1] == s[i];
    }
  }

  /** The first n elements of size k read back from a storage area. */
  function Reinterpret<S>(raw: seq<Byte>, n: nat, k: nat, decode: seq<Byte> -> S): (r: seq<S>)
    requires n * k <= |raw|
    ensures |r| == n
    ensures forall i :: 0 <= i < n ==> i * k + k <= |raw| && r[i] == decode(raw[i * k .. i * k + k])
  {
    if n == 0 then []
    else
      WordInBounds(n - 1, n, k, |raw|);
      MulLe(n - 1, n, k);
      Reinterpret(raw, n - 1, k, decode) + [decode(raw[(n - 1) * k .. (n - 1) * k + k])]
  }

  lemma WordCount(w: nat, h: nat, sizeT: nat, sizeS: nat, n: int, len: int)
    requires sizeS > 0
    requires n == (w * sizeT / sizeS) * h
    requires len == (w * h) * sizeT
    ensures n * sizeS <= len
  {
    var q := w * sizeT / sizeS;
    assert q * sizeS <= w * sizeT;
    calc {
      n * sizeS;
      (q * sizeS) * h;
    <= { MulLe(q * sizeS, w * sizeT, h); }
      (w * sizeT) * h;
      len;
    }
  }

  /** Every word of the rescaled buffer lies inside the old storage. */
  lemma {:induction false} WordInBounds(i: nat, n: nat, k: nat, len: nat)
    requires i < n && n * k <= len
    ensures i * k + k <= len
  {
    MulLe(i + 1, n, k);
    assert (i + 1) * k == i * k + k;
  }

  /** The rescaled buffer never reads past the old storage. */
  lemma RemapFits<T(!new)>(b: Buffer<T>, sizeT: nat, encode: T -> seq<Byte>, sizeS: nat, w: int, n: int)
    requires Valid(b) && sizeS > 0
    requires forall x :: |encode(x)| == sizeT
    requires w == b.width * sizeT / sizeS && n == w * b.height
    ensures 0 <= w && 0 <= n && n * sizeS <= |RawBytes(b.data, encode)|
  {
    RawBytesLength(b.data, encode, sizeT);
    WordCount(b.width, b.height, sizeT, sizeS, n, |RawBytes(b.data, encode)|);
  }

  /** `remap<S>(result)`: the storage of `b` is handed to a buffer of
      element type S whose width is rescaled by sizeof(T)/sizeof(S); `b`
      itself is left empty. Element i of the result is read from bytes
      [i*sizeof(S), (i+1)*sizeof(S)) of the old storage. */
  function Remap<T(!new), S>(b: Buffer<T>, sizeT: nat, encode: T -> seq<Byte>,
                             sizeS: nat, decode: seq<Byte> -> S): (r: (Buffer<S>, Buffer<T>))
    requires Valid(b) && sizeS > 0
    requires forall x :: |encode(x)| == sizeT
    ensures r.0.width == b.width * sizeT / sizeS
    ensures r.0.height == b.height
    ensures Valid(r.0) && Size(r.0) == r.0.width * r.0.height
    ensures r.1.width == 0 && r.1.height == 0 && Size(r.1) == 0
    ensures forall i :: 0 <= i < Size(r.0) ==>
              i * sizeS + sizeS <= |RawBytes(b.data, encode)| &&
              r.0.data[i] == decode(RawBytes(b.data, encode)[i * sizeS .. i * sizeS + sizeS])
  {
    var raw := RawBytes(b.data, encode);
    var w: int := b.width * sizeT / sizeS;
    var n: int := w * b.height;
    RemapFits(b, sizeT, encode, sizeS, w, n);
    var data := Reinterpret(raw, n, sizeS, decode);
    (Buffer(w, b.height, data), Deallocate(b))
  }

  /** Remapping to an element type of the same size whose decoding undoes
      the encoding keeps the buffer as it was. */
  lemma RemapSameSize<T(!new)>(b: Buffer<T>, k: nat, encode: T -> seq<Byte>, decode: seq<Byte> -> T)
    requires Valid(b) && k > 0
    requires forall x :: |encode(x)| == k
    requires forall x :: decode(encode(x)) == x
    ensures Remap(b, k, encode, k, decode).0 == b
  {
    var r := Remap(b, k, encode, k, decode).0;
    MulDivCancel(b.width, k);
    assert r.width == b.width && r.height == b.height;
    forall i | 0 <= i < Size(r)
      ensures r.data[i] == b.data[i]
    {
      RawBytesSlice(b.data, encode, k, i);
    }
  }

  /** `remap` can leave width 0 with a positive height: a one-byte element
      reinterpreted as a four-byte one. */
  lemma RemapCanBreakNormalForm(x: Byte)
    ensures var r := Remap(Buffer(1, 1, [x]), 1, (v: Byte) => [v], 4, (bs: seq<Byte>) => 0).0;
            r.width == 0 && r.height == 1 && !Normal(r)
  {
  }
}
