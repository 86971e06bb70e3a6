/** `mat<T>`: a dense matrix whose elements are stored column by column,
    element (x, y) at linear position x * height + y.

    The element type is a signed integer type, modelled by `int` without
    overflow. The in-place operators (`+=`, `threshold`, `Abs`, ...) become
    functions returning the new matrix; in this value model the compound
    operator and its binary counterpart are the same function.
 */
module Mat {
  import opened Numeric

  datatype Mat = Mat(width: nat, height: nat, data: seq<int>)

  /** What every constructor leaves behind: `size()` elements, and, since
      `_alloc` resets both dimensions to 0 whenever width * height is 0,
      either both dimensions are 0 or neither is. */
  predicate Valid(m: Mat)
  {
    |m.data| == m.width * m.height && (m.width == 0 <==> m.height == 0)
  }

  ////////////////
  // Arithmetic //
  ////////////////

  /** Column-major positions of in-range cells are in range. */
  lemma Cell(x: nat, y: nat, w: nat, h: nat)
    requires x < w && y < h
    ensures x * h + y < w * h
  {
    MulLe(x + 1, w, h);
    assert x * h + h == (x + 1) * h;
  }

  /** A position splits uniquely into column and row. */
  lemma {:induction false} Split(x: nat, y: nat, h: nat)
    requires y < h
    ensures (x * h + y) / h == x && (x * h + y) % h == y
  {
    var q, r := (x * h + y) / h, (x * h + y) % h;
    assert x * h + y == q * h + r && 0 <= r < h;
    assert (x - q) * h == r - y;
    if x - q >= 1 {
      MulLe(1, x - q, h);
    } else if x - q <= -1 {
      MulLe(1, q - x, h);
    }
  }

  /** Every in-range position is some in-range cell. */
  lemma {:induction false} Unsplit(p: nat, w: nat, h: nat)
    requires p < w * h
    ensures h > 0 && p / h < w && p % h < h && p == (p / h) * h + p % h
  {
    if p / h >= w {
      MulLe(w, p / h, h);
    }
  }

  ////////////////////////////
  // Construction and access //
  ////////////////////////////

  /** Element (x, y): `operator()` asserts 0 <= x < width and
      0 <= y < height and reads `_data[x*height() + y]`. */
  function At(m: Mat, x: nat, y: nat): int
    requires Valid(m) && x < m.width && y < m.height
  {
    Cell(x, y, m.width, m.height);
    m.data[x * m.height + y]
  }

  /** Two valid matrices of the same dimensions that agree at every cell
      are the same matrix. */
  lemma {:induction false} AtExtensional(a: Mat, b: Mat)
    requires Valid(a) && Valid(b) && a.width == b.width && a.height == b.height
    requires forall x: nat, y: nat :: x < a.width && y < a.height ==> At(a, x, y) == At(b, x, y)
    ensures a == b
  {
    forall p | 0 <= p < |a.data|
      ensures a.data[p] == b.data[p]
    {
      Unsplit(p, a.width, a.height);
      var x, y := p / a.height, p % a.height;
      assert At(a, x, y) == At(b, x, y);
    }
  }

  /** `_init(width, height, data)`: `_alloc` then copy width * height
      elements from `src`. Without a data pointer the elements are
      indeterminate, and `src` stands for them. When width * height is 0
      the result is the 0 by 0 matrix whatever the requested dimensions. */
  function Init(w: nat, h: nat, src: seq<int>): (r: Mat)
    requires w * h <= |src|
    ensures Valid(r)
    ensures w * h == 0 ==> r.width == 0 && r.height == 0 && r.data == []
    ensures w * h != 0 ==> r.width == w && r.height == h && r.data == src[..w * h]
  {
    if w * h == 0 then Mat(0, 0, []) else Mat(w, h, src[..w * h])
  }

  /** The copy constructor `mat(const mat&)` reproduces its source. */
  lemma CopyIsIdentity(m: Mat)
    requires Valid(m)
    ensures Init(m.width, m.height, m.data) == m
  {
  }

  /** `operator=(val)`: `std::fill` over begin..end. */
  function Fill(m: Mat, v: int): (r: Mat)
    requires Valid(m)
    ensures Valid(r) && r.width == m.width && r.height == m.height
    ensures forall i :: 0 <= i < |r.data| ==> r.data[i] == v
  {
    Mat(m.width, m.height, seq(|m.data|, _ => v))
  }

  /////////////////////
  // Sum and length  //
  /////////////////////

  /** `std::accumulate` from 0, left to right. */
  function SumOf(s: seq<int>): int
  {
    if s == [] then 0 else SumOf(s[..|s| - 1]) + s[|s| - 1]
  }

  /** `std::inner_product` of the elements with themselves: the sum of
      squares, with no square root. It is never negative, and it is 0
      only when every element is. */
  function SquaresOf(s: seq<int>): (r: int)
    ensures r >= 0
    ensures r == 0 <==> forall i :: 0 <= i < |s| ==> s[i] == 0
  {
    if s == [] then 0
    else
      var e := s[|s| - 1];
      assert e * e >= 0 && (e * e == 0 <==> e == 0);
      assert forall i :: 0 <= i < |s| - 1 ==> s[..|s| - 1][i] == s[i];
      SquaresOf(s[..|s| - 1]) + e * e
  }

  /** `sum()`. */
  function Sum(m: Mat): int { SumOf(m.data) }

  /** `length()`. */
  function Length(m: Mat): int { SquaresOf(m.data) }

  /** `average()`: `sum() / (width*height)` in integer division, which
      truncates toward zero. It divides by 0 on the empty matrix. */
  function Average(m: Mat): int
    requires Valid(m) && m.width > 0
  {
    assert m.width * m.height > 0 by { MulLe(1, m.width, m.height); }
    CDiv(Sum(m), m.width * m.height)
  }

  lemma {:induction false} SumOfConstant(n: nat, v: int)
    ensures SumOf(seq(n, _ => v)) == n * v
  {
    if n > 0 {
      assert seq(n, _ => v)[..n - 1] == seq(n - 1, _ => v);
      SumOfConstant(n - 1, v);
    }
  }

  /** A filled matrix sums to size() copies of the value, and its average
      is that value. */
  lemma FillSum(m: Mat, v: int)
    requires Valid(m)
    ensures Sum(Fill(m, v)) == |m.data| * v
    ensures m.width > 0 ==> Average(Fill(m, v)) == v
  {
    SumOfConstant(|m.data|, v);
    if m.width > 0 {
      var n := m.width * m.height;
      MulLe(1, m.width, m.height);
      assert |m.data| * v == v * n;
      CDivCancel(v, n);
    }
  }

  ////////////////////////////
  // Elementwise operations //
  ////////////////////////////

  /** The scalar compound operators `+= -= *= /=` and the binary `*` and
      `/` by a scalar: `std::transform` with `bind2nd(op, val)`. */
  function Scalar(m: Mat, op: Op, v: int): (r: Mat)
    requires Valid(m)
    requires op == Over ==> v != 0
    ensures Valid(r) && r.width == m.width && r.height == m.height
    ensures forall i :: 0 <= i < |m.data| ==> r.data[i] == ApplyOp(op, m.data[i], v)
  {
    Mat(m.width, m.height, seq(|m.data|, i requires 0 <= i < |m.data| => ApplyOp(op, m.data[i], v)))
  }

  /** Subtracting a scalar undoes adding it, and dividing by a nonzero
      scalar undoes multiplying by it. */
  lemma ScalarInverse(m: Mat, v: int)
    requires Valid(m)
    ensures Scalar(Scalar(m, Plus, v), Minus, v) == m
    ensures v != 0 ==> Scalar(Scalar(m, Times, v), Over, v) == m
  {
    if v != 0 {
      forall i | 0 <= i < |m.data|
        ensures CDiv(m.data[i] * v, v) == m.data[i]
      {
        CDivCancel(m.data[i], v);
      }
    }
  }

  lemma {:induction false} SumOfShift(s: seq<int>, t: seq<int>, v: int)
    requires |s| == |t|
    requires forall i :: 0 <= i < |s| ==> t[i] == s[i] + v
    ensures SumOf(t) == SumOf(s) + |s| * v
  {
    if s != [] {
      SumOfShift(s[..|s| - 1], t[..|t| - 1], v);
    }
  }

  lemma {:induction false} SumOfScale(s: seq<int>, t: seq<int>, v: int)
    requires |s| == |t|
    requires forall i :: 0 <= i < |s| ==> t[i] == s[i] * v
    ensures SumOf(t) == SumOf(s) * v
  {
    if s != [] {
      SumOfScale(s[..|s| - 1], t[..|t| - 1], v);
      assert (SumOf(s[..|s| - 1]) + s[|s| - 1]) * v == SumOf(s[..|s| - 1]) * v + s[|s| - 1] * v;
    }
  }

  /** Adding a scalar adds it once per element to `sum()`; multiplying
      scales `sum()`. */
  lemma ScalarSum(m: Mat, v: int)
    requires Valid(m)
    ensures Sum(Scalar(m, Plus, v)) == Sum(m) + |m.data| * v
    ensures Sum(Scalar(m, Times, v)) == Sum(m) * v
  {
    SumOfShift(m.data, Scalar(m, Plus, v).data, v);
    SumOfScale(m.data, Scalar(m, Times, v).data, v);
  }

  /** `operator+` and `operator+=` (and `-`, `-=` with `subtract`): both
      assert equal dimensions, then combine element by element. */
  function Combine(a: Mat, b: Mat, subtract: bool): (r: Mat)
    requires Valid(a) && Valid(b) && a.width == b.width && a.height == b.height
    ensures Valid(r) && r.width == a.width && r.height == a.height
    ensures forall i :: 0 <= i < |a.data| ==>
              r.data[i] == if subtract then a.data[i] - b.data[i] else a.data[i] + b.data[i]
  {
    Mat(a.width, a.height, seq(|a.data|, i requires 0 <= i < |a.data| =>
      if subtract then a.data[i] - b.data[i] else a.data[i] + b.data[i]))
  }

  lemma {:induction false} SumOfPairs(s: seq<int>, t: seq<int>, u: seq<int>)
    requires |s| == |t| == |u|
    requires forall i :: 0 <= i < |s| ==> u[i] == s[i] + t[i]
    ensures SumOf(u) == SumOf(s) + SumOf(t)
  {
    if s != [] {
      SumOfPairs(s[..|s| - 1], t[..|t| - 1], u[..|u| - 1]);
    }
  }

  /** Subtraction undoes addition, addition commutes, and `sum()` of a
      sum is the sum of the `sum()`s. */
  lemma CombineLaws(a: Mat, b: Mat)
    requires Valid(a) && Valid(b) && a.width == b.width && a.height == b.height
    ensures Combine(Combine(a, b, false), b, true) == a
    ensures Combine(a, b, false) == Combine(b, a, false)
    ensures Sum(Combine(a, b, false)) == Sum(a) + Sum(b)
  {
    SumOfPairs(a.data, b.data, Combine(a, b, false).data);
  }

  ///////////////////////
  // threshold and Abs //
  ///////////////////////

  /** `threshold(neg_value, pos_value)`: every element strictly between
      the two bounds becomes 0. */
  function Threshold(m: Mat, neg: int, pos: int): (r: Mat)
    requires Valid(m)
    ensures Valid(r) && r.width == m.width && r.height == m.height
    ensures forall i :: 0 <= i < |m.data| ==> (r.data[i] == 0 || r.data[i] == m.data[i])
    ensures forall i :: 0 <= i < |m.data| && !(neg < m.data[i] < pos) ==> r.data[i] == m.data[i]
  {
    Mat(m.width, m.height, seq(|m.data|, i requires 0 <= i < |m.data| =>
      if m.data[i] < pos && m.data[i] > neg then 0 else m.data[i]))
  }

  /** `threshold(value)` is `threshold(-value, +value)`. */
  function ThresholdAbout(m: Mat, v: int): (r: Mat)
    requires Valid(m)
    ensures Valid(r) && r.width == m.width && r.height == m.height
    ensures forall i :: 0 <= i < |m.data| ==> (r.data[i] == 0 <==> m.data[i] == 0 || Abs(m.data[i]) < v)
  {
    Threshold(m, -v, v)
  }

  /** Thresholding twice with the same bounds changes nothing more, and
      when no integer lies strictly between the bounds nothing changes. */
  lemma ThresholdLaws(m: Mat, neg: int, pos: int)
    requires Valid(m)
    ensures Threshold(Threshold(m, neg, pos), neg, pos) == Threshold(m, neg, pos)
    ensures pos <= neg + 1 ==> Threshold(m, neg, pos) == m
  {
  }

  /** `Abs()`: negative elements are negated, the others kept. */
  function AbsOf(m: Mat): (r: Mat)
    requires Valid(m)
    ensures Valid(r) && r.width == m.width && r.height == m.height
    ensures forall i :: 0 <= i < |m.data| ==> r.data[i] >= 0 && (r.data[i] == m.data[i] || r.data[i] == -m.data[i])
  {
    Mat(m.width, m.height, seq(|m.data|, i requires 0 <= i < |m.data| =>
      if m.data[i] < 0 then -m.data[i] else m.data[i]))
  }

  lemma {:induction false} SquaresOfAbs(s: seq<int>, t: seq<int>)
    requires |s| == |t|
    requires forall i :: 0 <= i < |s| ==> t[i] == s[i] || t[i] == -s[i]
    ensures SquaresOf(t) == SquaresOf(s)
  {
    if s != [] {
      SquaresOfAbs(s[..|s| - 1], t[..|t| - 1]);
      var e := s[|s| - 1];
      assert (-e) * (-e) == e * e;
    }
  }

  /** `Abs()` is idempotent, keeps `length()`, and is the identity exactly
      on matrices without negative elements. */
  lemma AbsLaws(m: Mat)
    requires Valid(m)
    ensures AbsOf(AbsOf(m)) == AbsOf(m)
    ensures Length(AbsOf(m)) == Length(m)
    ensures AbsOf(m) == m <==> forall i :: 0 <= i < |m.data| ==> m.data[i] >= 0
  {
    SquaresOfAbs(m.data, AbsOf(m).data);
    if AbsOf(m) == m {
      forall i | 0 <= i < |m.data|
        ensures m.data[i] >= 0
      {
        assert AbsOf(m).data[i] == m.data[i];
      }
    }
  }

  ///////////////
  // transpose //
  ///////////////

  function TransposeData(m: Mat): (r: seq<int>)
    requires Valid(m)
    ensures |r| == |m.data|
  {
    seq(|m.data|, p requires 0 <= p < |m.data| =>
      Unsplit(p, m.height, m.width);
      Cell(p % m.width, p / m.width, m.width, m.height);
      m.data[(p % m.width) * m.height + p / m.width])
  }

  /** `transpose()`: a height by width matrix with result(h, w) = this(w, h). */
  function Transpose(m: Mat): (r: Mat)
    requires Valid(m)
    ensures Valid(r) && r.width == m.height && r.height == m.width
  {
    Mat(m.height, m.width, TransposeData(m))
  }

  lemma TransposeAt(m: Mat, x: nat, y: nat)
    requires Valid(m) && x < m.width && y < m.height
    ensures At(Transpose(m), y, x) == At(m, x, y)
  {
    Split(y, x, m.width);
    Cell(y, x, m.height, m.width);
  }

  /** Transposing twice gives back the matrix. */
  lemma TransposeInvolution(m: Mat)
    requires Valid(m)
    ensures Transpose(Transpose(m)) == m
  {
    var t := Transpose(m);
    forall x: nat, y: nat | x < m.width && y < m.height
      ensures At(Transpose(t), x, y) == At(m, x, y)
    {
      TransposeAt(m, x, y);
      TransposeAt(t, y, x);
    }
    AtExtensional(Transpose(t), m);
  }

  /////////////
  // Product //
  /////////////

  /** The inner loop of `operator*`: the sum over k < n of
      this(k, j) * other(i, k), accumulated in increasing k. */
  function Dot(a: Mat, b: Mat, i: nat, j: nat, n: nat): int
    requires Valid(a) && Valid(b) && a.width == b.height
    requires i < b.width && j < a.height && n <= a.width
  {
    if n == 0 then 0 else Dot(a, b, i, j, n - 1) + At(a, n - 1, j) * At(b, i, n - 1)
  }

  /** `operator*(other)`: asserts other.height == width, and builds the
      other.width by height matrix of inner products. The result goes
      through `_alloc`, so it is 0 by 0 when either dimension is 0. */
  function Product(a: Mat, b: Mat): (r: Mat)
    requires Valid(a) && Valid(b) && b.height == a.width
    ensures Valid(r)
    ensures b.width * a.height != 0 ==> r.width == b.width && r.height == a.height
    ensures b.width * a.height == 0 ==> r.width == 0 && r.height == 0
  {
    var w, h := b.width, a.height;
    if w * h == 0 then Mat(0, 0, [])
    else Mat(w, h, seq(w * h, p requires 0 <= p < w * h =>
      Unsplit(p, w, h);
      Dot(a, b, p / h, p % h, a.width)))
  }

  lemma ProductAt(a: Mat, b: Mat, i: nat, j: nat)
    requires Valid(a) && Valid(b) && b.height == a.width
    requires i < b.width && j < a.height
    ensures At(Product(a, b), i, j) == Dot(a, b, i, j, a.width)
  {
    Cell(i, j, b.width, a.height);
    Split(i, j, a.height);
  }

  lemma {:induction false} DotTransposed(a: Mat, b: Mat, i: nat, j: nat, n: nat)
    requires Valid(a) && Valid(b) && a.width == b.height
    requires i < b.width && j < a.height && n <= a.width
    ensures Dot(Transpose(b), Transpose(a), j, i, n) == Dot(a, b, i, j, n)
  {
    if n > 0 {
      DotTransposed(a, b, i, j, n - 1);
      TransposeAt(a, n - 1, j);
      TransposeAt(b, i, n - 1);
      assert At(b, i, n - 1) * At(a, n - 1, j) == At(a, n - 1, j) * At(b, i, n - 1);
    }
  }

  /** The transpose of a product is the product of the transposes in the
      opposite order. */
  lemma TransposeOfProduct(a: Mat, b: Mat)
    requires Valid(a) && Valid(b) && b.height == a.width
    ensures Transpose(Product(a, b)) == Product(Transpose(b), Transpose(a))
  {
    var p := Product(a, b);
    var q := Product(Transpose(b), Transpose(a));
    if b.width * a.height != 0 {
      forall x: nat, y: nat | x < a.height && y < b.width
        ensures At(Transpose(p), x, y) == At(q, x, y)
      {
        TransposeAt(p, y, x);
        ProductAt(a, b, y, x);
        ProductAt(Transpose(b), Transpose(a), x, y);
        DotTransposed(a, b, y, x, a.width);
      }
      AtExtensional(Transpose(p), q);
    } else {
      assert a.height * b.width == 0;
    }
  }

  //////////////
  // _compare //
  //////////////

  /** How many positions hold a smaller, and how many a larger, element
      in `s` than in `t`. */
  function Tally(s: seq<int>, t: seq<int>): (r: (nat, nat))
    requires |s| == |t|
    ensures r.0 + r.1 <= |s|
  {
    if s == [] then (0, 0)
    else
      var (less, greater) := Tally(s[..|s| - 1], t[..|t| - 1]);
      var e, f := s[|s| - 1], t[|t| - 1];
      if e < f then (less + 1, greater)
      else if e > f then (less, greater + 1)
      else (less, greater)
  }

  /** The reference result of `_compare`. */
  function CompareOf(a: Mat, b: Mat): int
  {
    if a.width != b.width || a.height != b.height || |a.data| != |b.data| then -1
    else
      var (neg, pos) := Tally(a.data, b.data);
      if |a.data| - neg - pos == |a.data| then 0
      else if pos == neg then -1
      else pos - neg
  }

  /** `_compare(m)`: different dimensions give -1; otherwise the loop
      counts the positions where this element is smaller (neg), larger
      (pos) or equal (zero), and the result is 0 when all are equal, -1
      when pos == neg, and pos - neg otherwise. */
  method Compare(a: Mat, b: Mat) returns (c: int)
    requires Valid(a) && Valid(b)
    ensures c == CompareOf(a, b)
  {
    if b.width != a.width || b.height != a.height {
      return -1;
    }
    var pos, neg, zero := 0, 0, 0;
    var i := 0;
    while i < |a.data|
      invariant 0 <= i <= |a.data|
      invariant (neg, pos) == Tally(a.data[..i], b.data[..i])
      invariant zero == i - neg - pos
    {
      assert a.data[..i + 1][..i] == a.data[..i] && b.data[..i + 1][..i] == b.data[..i];
      if a.data[i] < b.data[i] {
        neg := neg + 1;
      } else if a.data[i] > b.data[i] {
        pos := pos + 1;
      } else {
        zero := zero + 1;
      }
      i := i + 1;
    }
    assert a.data[..i] == a.data && b.data[..i] == b.data;
    if zero == a.width * a.height {
      c := 0;
    } else if pos == neg {
      c := -1;
    } else {
      c := pos - neg;
    }
  }

  lemma {:induction false} TallyZero(s: seq<int>, t: seq<int>)
    requires |s| == |t|
    ensures Tally(s, t) == (0, 0) <==> s == t
  {
    if s != [] {
      TallyZero(s[..|s| - 1], t[..|t| - 1]);
      assert s == s[..|s| - 1] + [s[|s| - 1]] && t == t[..|t| - 1] + [t[|t| - 1]];
    }
  }

  lemma {:induction false} TallySwap(s: seq<int>, t: seq<int>)
    requires |s| == |t|
    ensures Tally(t, s) == (Tally(s, t).1, Tally(s, t).0)
  {
    if s != [] {
      TallySwap(s[..|s| - 1], t[..|t| - 1]);
    }
  }

  /** `==` (compare result 0) holds exactly between equal matrices. */
  lemma CompareZeroIffEqual(a: Mat, b: Mat)
    requires Valid(a) && Valid(b)
    ensures CompareOf(a, b) == 0 <==> a == b
  {
    if a.width == b.width && a.height == b.height {
      TallyZero(a.data, b.data);
    }
  }

  /** When the dimensions agree and the larger and smaller counts differ,
      swapping the operands negates the result, so `<` and `>` trade
      places. */
  lemma CompareSwap(a: Mat, b: Mat)
    requires Valid(a) && Valid(b) && a.width == b.width && a.height == b.height
    requires Tally(a.data, b.data).0 != Tally(a.data, b.data).1
    ensures CompareOf(b, a) == -CompareOf(a, b)
  {
    TallySwap(a.data, b.data);
  }

  /** Kept as written: matrices of different dimensions, and equal-sized
      ones with as many larger as smaller elements, are each `<` the
      other. */
  lemma CompareBothLess()
    ensures CompareOf(Mat(1, 1, [0]), Mat(1, 2, [0, 0])) < 0
    ensures CompareOf(Mat(1, 2, [0, 0]), Mat(1, 1, [0])) < 0
    ensures CompareOf(Mat(2, 1, [1, 0]), Mat(2, 1, [0, 1])) < 0
    ensures CompareOf(Mat(2, 1, [0, 1]), Mat(2, 1, [1, 0])) < 0
  {
    var s, t := [1, 0], [0, 1];
    assert s[..1] == [1] && t[..1] == [0] && s[..0] == [] && t[..0] == [];
    assert Tally(s, t) == (1, 1);
    assert Tally(t, s) == (1, 1);
  }
}
