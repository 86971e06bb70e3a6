/** `vec3d<T>`: three components x, y, z laid out consecutively so that
    iteration and `operator[]` visit them in that order.

    The component type is a signed integer type, modelled by `int`
    without overflow. `length()` is then the square root truncated to an
    integer, which is what converting `sqrt`'s result back to the
    component type gives. A compound operator (`+=`, `*=`, ...) leaves the
    vector its binary counterpart returns, so both are one function here.
 */
module Vec3d {
  import opened Numeric
  import opened Wrappers

  datatype Vec3 = Vec3(x: int, y: int, z: int)

  //////////////////
  // Constructors //
  //////////////////

  /** `vec3d(value)`: all three components set to `value`. */
  function Fill(v: int): (r: Vec3)
    ensures Components(r) == [v, v, v]
  {
    Vec3(v, v, v)
  }

  /** Iteration from `begin()` to `end()`: `size()` is 3 and the components
      come in declaration order. */
  function Components(v: Vec3): (s: seq<int>)
    ensures |s| == 3
  {
    [v.x, v.y, v.z]
  }

  /** `operator[](index)`: `begin()[index]`, defined for 0 <= index < 3. */
  function Component(v: Vec3, index: nat): (c: int)
    requires index < 3
    ensures index == 0 ==> c == v.x
    ensures index == 1 ==> c == v.y
    ensures index == 2 ==> c == v.z
  {
    Components(v)[index]
  }

  /** One step of the range constructor: the element under the iterator
      and the iterator advanced, or `pad` and the iterator left at the
      end. */
  function Next(s: seq<int>, pad: int): (int, seq<int>)
  {
    if s == [] then (pad, s) else (s[0], s[1..])
  }

  /** `vec3d(begin, end, pad)`: x and y take the next element when there
      is one and advance; z takes the next element without advancing. */
  function FromRange(s: seq<int>, pad: int): (v: Vec3)
    ensures forall i :: 0 <= i < 3 ==> Components(v)[i] == if i < |s| then s[i] else pad
  {
    var (x, afterX) := Next(s, pad);
    var (y, afterY) := Next(afterX, pad);
    var z := if afterY != [] then afterY[0] else pad;
    assert |s| >= 2 ==> afterY == s[2..];
    Vec3(x, y, z)
  }

  /** The range constructor reads at most three elements, and reading a
      vector's own components back builds that vector. */
  lemma FromRangeLaws(v: Vec3, s: seq<int>, pad: int)
    ensures FromRange(Components(v), pad) == v
    ensures |s| >= 3 ==> FromRange(s, pad) == FromRange(s[..3], pad)
  {
    var a, b := FromRange(Components(v), pad), FromRange(s, pad);
    assert Components(a)[0] == v.x && Components(a)[1] == v.y && Components(a)[2] == v.z;
    if |s| >= 3 {
      var c := FromRange(s[..3], pad);
      assert Components(b)[0] == Components(c)[0];
      assert Components(b)[1] == Components(c)[1];
      assert Components(b)[2] == Components(c)[2];
    }
  }

  /////////////////
  // Comparisons //
  /////////////////

  /** `operator==`: all three components equal. */
  predicate Equal(a: Vec3, b: Vec3)
  {
    b.x == a.x && b.y == a.y && b.z == a.z
  }

  /** `operator!=`, written separately in the class as "some component
      differs". */
  predicate NotEqual(a: Vec3, b: Vec3)
  {
    b.x != a.x || b.y != a.y || b.z != a.z
  }

  /** `==` is equality of vectors and `!=` is exactly its negation. */
  lemma EqualityLaws(a: Vec3, b: Vec3)
    ensures Equal(a, b) <==> a == b
    ensures NotEqual(a, b) <==> !Equal(a, b)
  {
  }

  /** `dot(v)`: x·v.x + y·v.y + z·v.z. */
  function Dot(a: Vec3, b: Vec3): int
  {
    a.x * b.x + a.y * b.y + a.z * b.z
  }

  /** `squared_length()`: the dot product of the vector with itself. It
      is never negative, and 0 only for the zero vector. */
  function SquaredLength(v: Vec3): (n: nat)
    ensures n == 0 <==> v == Fill(0)
  {
    Square(v.x);
    Square(v.y);
    Square(v.z);
    Dot(v, v)
  }

  lemma Square(v: int)
    ensures v * v >= 0 && (v * v == 0 <==> v == 0)
  {
  }

  /** The comparisons with a scalar: `<`, `<=`, `>`, `>=` compare
      `squared_length()` with val*val. */
  predicate LessThan(v: Vec3, val: int) { SquaredLength(v) < val * val }
  predicate AtMost(v: Vec3, val: int) { SquaredLength(v) <= val * val }
  predicate GreaterThan(v: Vec3, val: int) { SquaredLength(v) > val * val }
  predicate AtLeast(v: Vec3, val: int) { SquaredLength(v) >= val * val }

  /** Comparing with val squares it, so the sign of val is ignored: a
      vector is shorter than -2 exactly when it is shorter than 2. For a
      nonnegative val, `<` holds exactly when `length()` is below val, and
      `<` and `>=` (likewise `>` and `<=`) are complements. */
  lemma ScalarOrder(v: Vec3, val: int)
    ensures LessThan(v, val) <==> LessThan(v, -val)
    ensures LessThan(v, val) <==> !AtLeast(v, val)
    ensures GreaterThan(v, val) <==> !AtMost(v, val)
    ensures val >= 0 ==> (LessThan(v, val) <==> Length(v) < val)
  {
    assert (-val) * (-val) == val * val;
    if val >= 0 {
      SqrtBelow(SquaredLength(v), val);
    }
  }

  ////////////////
  // Arithmetic //
  ////////////////

  /** `+ - * /` between vectors, component by component; division
      truncates and needs nonzero components in the divisor. */
  function Zip(a: Vec3, op: Op, b: Vec3): (r: Vec3)
    requires op == Over ==> b.x != 0 && b.y != 0 && b.z != 0
    ensures forall i :: 0 <= i < 3 ==> Components(r)[i] == ApplyOp(op, Components(a)[i], Components(b)[i])
  {
    Vec3(ApplyOp(op, a.x, b.x), ApplyOp(op, a.y, b.y), ApplyOp(op, a.z, b.z))
  }

  /** `+ - * /` with a scalar, component by component; `s * v` (the
      friend) is `v * s`. */
  function Shift(a: Vec3, op: Op, s: int): (r: Vec3)
    requires op == Over ==> s != 0
    ensures forall i :: 0 <= i < 3 ==> Components(r)[i] == ApplyOp(op, Components(a)[i], s)
  {
    Vec3(ApplyOp(op, a.x, s), ApplyOp(op, a.y, s), ApplyOp(op, a.z, s))
  }

  /** Unary `-`. */
  function Negate(a: Vec3): (r: Vec3)
    ensures Zip(a, Plus, r) == Fill(0)
  {
    Vec3(-a.x, -a.y, -a.z)
  }

  /** A scalar operation is the vector operation with a filled vector, and
      subtraction and division undo addition and multiplication. */
  lemma ArithmeticLaws(a: Vec3, b: Vec3, op: Op, s: int)
    requires op == Over ==> s != 0
    ensures Shift(a, op, s) == Zip(a, op, Fill(s))
    ensures Zip(Zip(a, Plus, b), Minus, b) == a
    ensures s != 0 ==> Shift(Shift(a, Times, s), Over, s) == a
  {
    if s != 0 {
      CDivCancel(a.x, s);
      CDivCancel(a.y, s);
      CDivCancel(a.z, s);
    }
  }

  /** The dot product is symmetric and distributes over vector addition. */
  lemma DotLaws(a: Vec3, b: Vec3, c: Vec3)
    ensures Dot(a, b) == Dot(b, a)
    ensures Dot(Zip(a, Plus, b), c) == Dot(a, c) + Dot(b, c)
  {
    assert (a.x + b.x) * c.x == a.x * c.x + b.x * c.x;
    assert (a.y + b.y) * c.y == a.y * c.y + b.y * c.y;
    assert (a.z + b.z) * c.z == a.z * c.z + b.z * c.z;
  }

  /** `squared_distance(v)`: the squared length of the difference. */
  function SquaredDistance(a: Vec3, b: Vec3): (n: nat)
    ensures n == 0 <==> a == b
  {
    var d := Zip(a, Minus, b);
    assert d == Fill(0) <==> a == b;
    SquaredLength(d)
  }

  /** The squared distance does not depend on the order of the points. */
  lemma SquaredDistanceSymmetric(a: Vec3, b: Vec3)
    ensures SquaredDistance(a, b) == SquaredDistance(b, a)
  {
    var d, e := Zip(a, Minus, b), Zip(b, Minus, a);
    assert e == Negate(d);
    assert (-d.x) * (-d.x) == d.x * d.x;
    assert (-d.y) * (-d.y) == d.y * d.y;
    assert (-d.z) * (-d.z) == d.z * d.z;
  }

  /** `cross(v)`: (v.z·y − v.y·z, v.x·z − v.z·x, v.y·x − v.x·y). */
  function Cross(a: Vec3, v: Vec3): Vec3
  {
    Vec3(v.z * a.y - v.y * a.z, v.x * a.z - v.z * a.x, v.y * a.x - v.x * a.y)
  }

  /** The cross product is orthogonal to its left factor. */
  lemma CrossOrthogonal(a: Vec3, b: Vec3)
    ensures Dot(a, Cross(a, b)) == 0
  {
    var c := Cross(a, b);
    assert a.x * c.x == a.x * b.z * a.y - a.x * b.y * a.z;
    assert a.y * c.y == a.y * b.x * a.z - a.y * b.z * a.x;
    assert a.z * c.z == a.z * b.y * a.x - a.z * b.x * a.y;
  }

  /** The cross product changes sign when the factors are exchanged, is
      orthogonal to both, and vanishes for a vector with itself. */
  lemma CrossLaws(a: Vec3, b: Vec3)
    ensures Cross(b, a) == Negate(Cross(a, b))
    ensures Dot(a, Cross(a, b)) == 0 && Dot(b, Cross(a, b)) == 0
    ensures Cross(a, a) == Fill(0)
  {
    CrossOrthogonal(a, b);
    CrossOrthogonal(b, a);
    var c := Cross(b, a);
    assert Dot(b, Negate(c)) == -Dot(b, c);
  }

  /** `min` and `max` (member and friend): component by component. */
  function MinOf(a: Vec3, b: Vec3): (r: Vec3)
    ensures forall i :: 0 <= i < 3 ==> Components(r)[i] == Min(Components(a)[i], Components(b)[i])
  {
    Vec3(Min(a.x, b.x), Min(a.y, b.y), Min(a.z, b.z))
  }

  function MaxOf(a: Vec3, b: Vec3): (r: Vec3)
    ensures forall i :: 0 <= i < 3 ==> Components(r)[i] == Max(Components(a)[i], Components(b)[i])
  {
    Vec3(Max(a.x, b.x), Max(a.y, b.y), Max(a.z, b.z))
  }

  /** `min` and `max` commute, bound both arguments component by
      component, and absorb each other. */
  lemma MinMaxLaws(a: Vec3, b: Vec3)
    ensures MinOf(a, b) == MinOf(b, a) && MaxOf(a, b) == MaxOf(b, a)
    ensures forall i :: 0 <= i < 3 ==>
              Components(MinOf(a, b))[i] <= Components(a)[i] <= Components(MaxOf(a, b))[i]
    ensures MinOf(a, MaxOf(a, b)) == a && MaxOf(a, MinOf(a, b)) == a
  {
  }

  /** The friend `abs`: component by component. */
  function AbsOf(a: Vec3): (r: Vec3)
    ensures forall i :: 0 <= i < 3 ==> Components(r)[i] >= 0
    ensures SquaredLength(r) == SquaredLength(a)
  {
    AbsSquare(a.x);
    AbsSquare(a.y);
    AbsSquare(a.z);
    Vec3(Abs(a.x), Abs(a.y), Abs(a.z))
  }

  lemma AbsSquare(v: int)
    ensures Abs(v) * Abs(v) == v * v
  {
  }

  /////////////////////////
  // length and normalize //
  /////////////////////////

  /** The square root of n truncated to an integer. */
  function Sqrt(n: nat): (r: nat)
    ensures r * r <= n < (r + 1) * (r + 1)
  {
    if n == 0 then 0
    else
      var s := Sqrt(n - 1);
      assert (s + 2) * (s + 2) == (s + 1) * (s + 1) + 2 * s + 3;
      if (s + 1) * (s + 1) <= n then s + 1 else s
  }

  /** Any r with r² <= n < (r + 1)² is the truncated square root. */
  lemma SqrtUnique(n: nat, r: nat)
    requires r * r <= n < (r + 1) * (r + 1)
    ensures Sqrt(n) == r
  {
    var s := Sqrt(n);
    if s < r {
      MulLe(s + 1, r, s + 1);
      MulLe(s + 1, r, r);
    } else if s > r {
      MulLe(r + 1, s, r + 1);
      MulLe(r + 1, s, s);
    }
  }

  /** For val >= 0, the truncated root of n is below val exactly when n
      is below val². */
  lemma SqrtBelow(n: nat, val: nat)
    ensures Sqrt(n) < val <==> n < val * val
  {
    var s := Sqrt(n);
    if s < val {
      MulLe(s + 1, val, s + 1);
      MulLe(s + 1, val, val);
    } else {
      MulLe(val, s, val);
      MulLe(val, s, s);
    }
  }

  /** `length()`: `sqrt(squared_length())` converted to the component type. */
  function Length(v: Vec3): nat
  {
    Sqrt(SquaredLength(v))
  }

  /** `normalize()`: throws `zeroLengthVector` when `length()` is 0, and
      otherwise divides every component by it. */
  function Normalize(v: Vec3): (r: Result<Vec3>)
    ensures r.Fail? <==> v == Fill(0)
    ensures r.Fail? ==> r.error == ZeroLengthVector
  {
    var l := Length(v);
    NormalizeGuard(v);
    if l == 0 then Fail(ZeroLengthVector) else Ok(Shift(v, Over, l))
  }

  /** LengthZero component by component. */
  lemma NormalizeGuard(v: Vec3)
    ensures Length(v) == 0 <==> v.x == 0 && v.y == 0 && v.z == 0
  {
    LengthZero(v);
  }

  /** The length is 0 exactly for the zero vector. */
  lemma LengthZero(v: Vec3)
    ensures Length(v) == 0 <==> v == Fill(0)
  {
    var n := SquaredLength(v);
    var l := Sqrt(n);
    if l == 0 {
      assert n < 1;
    } else {
      assert l * l >= 1 by {
        MulPositive(l, l);
      }
    }
  }

  lemma MulPositive(a: nat, b: nat)
    requires a >= 1 && b >= 1
    ensures a * b >= 1
  {
  }

  /** A nonzero vector normalises to its components each divided, with
      truncation, by its length. */
  lemma NormalizeDivides(v: Vec3)
    requires v != Fill(0)
    ensures Length(v) > 0
    ensures Normalize(v) == Ok(Vec3(CDiv(v.x, Length(v)), CDiv(v.y, Length(v)), CDiv(v.z, Length(v))))
  {
    LengthZero(v);
    ShiftOver(v, Length(v));
  }

  /** Dividing by a scalar divides each component. */
  lemma ShiftOver(v: Vec3, l: int)
    requires l != 0
    ensures Shift(v, Over, l) == Vec3(CDiv(v.x, l), CDiv(v.y, l), CDiv(v.z, l))
  {
  }

  /** A value whose square is at most n is at most the root of n in
      absolute value. */
  lemma WithinRoot(c: int, n: nat)
    requires c * c <= n
    ensures Abs(c) <= Sqrt(n)
  {
    var a, l := Abs(c), Sqrt(n);
    AbsSquare(c);
    if a > l {
      MulLe(l + 1, a, l + 1);
      MulLe(l + 1, a, a);
    }
  }

  /** No component exceeds the length in absolute value. */
  lemma ComponentWithinLength(v: Vec3, i: nat)
    requires i < 3
    ensures Abs(Components(v)[i]) <= Length(v)
  {
    Square(v.x);
    Square(v.y);
    Square(v.z);
    var n := SquaredLength(v);
    if i == 0 {
      WithinRoot(v.x, n);
    } else if i == 1 {
      WithinRoot(v.y, n);
    } else {
      WithinRoot(v.z, n);
    }
  }

  lemma CDivUnit(c: int, l: nat)
    requires l > 0 && Abs(c) <= l
    ensures -1 <= CDiv(c, l) <= 1
  {
    var a := Abs(c);
    if a == l {
      MulDivCancel(1, l);
    } else {
      assert a / l == 0;
    }
  }

  /** Every component of a normalised vector lies between -1 and 1. */
  lemma NormalizeUnit(v: Vec3)
    requires v != Fill(0)
    ensures Normalize(v).Ok?
    ensures forall i :: 0 <= i < 3 ==> -1 <= Components(Normalize(v).value)[i] <= 1
  {
    forall i | 0 <= i < 3
      ensures -1 <= Components(Normalize(v).value)[i] <= 1
    {
      ComponentWithinLength(v, i);
      CDivUnit(Components(v)[i], Length(v));
    }
  }

  /** A vector along an axis normalises to the unit vector on that axis. */
  lemma NormalizeAxis()
    ensures Normalize(Vec3(0, 0, 2)) == Ok(Vec3(0, 0, 1))
  {
    SqrtUnique(4, 2);
  }

  /** `swap` and `_swap`: both vectors trade all three components. */
  function Swap(a: Vec3, b: Vec3): (p: (Vec3, Vec3))
    ensures Components(p.0) == Components(b) && Components(p.1) == Components(a)
  {
    (Vec3(b.x, b.y, b.z), Vec3(a.x, a.y, a.z))
  }

  /** Swapping twice restores both vectors. */
  lemma SwapTwice(a: Vec3, b: Vec3)
    ensures Swap(Swap(a, b).0, Swap(a, b).1) == (a, b)
  {
  }
}
