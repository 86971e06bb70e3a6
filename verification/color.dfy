/** `color<T>`: three channels r, g, b, laid out consecutively so that
    iteration and indexing visit them in that order.

    The channel type is a signed integer type, modelled by `int` without
    overflow; a compound operator (`+=`, `*=`, ...) leaves the colour its
    binary counterpart returns, so both are the same function here.
 */
module Color {
  import opened Numeric

  datatype Color = Color(r: int, g: int, b: int)

  /** `color(value)`: every channel set to `value`. */
  function Grey(v: int): (c: Color)
    ensures Channels(c) == [v, v, v]
  {
    Color(v, v, v)
  }

  /** Iteration from `begin()` to `end()`: `size()` is 3, and the
      channels come in declaration order. */
  function Channels(c: Color): (s: seq<int>)
    ensures |s| == 3
  {
    [c.r, c.g, c.b]
  }

  /** `color(red, green, blue)` from three consecutive values. */
  function FromChannels(s: seq<int>): (c: Color)
    requires |s| == 3
    ensures c.r == s[0] && c.g == s[1] && c.b == s[2]
  {
    Color(s[0], s[1], s[2])
  }

  /** `operator[](idx)`: `*(begin() + idx)`, defined for idx < 3. */
  function Channel(c: Color, idx: nat): (v: int)
    requires idx < 3
    ensures idx == 0 ==> v == c.r
    ensures idx == 1 ==> v == c.g
    ensures idx == 2 ==> v == c.b
  {
    Channels(c)[idx]
  }

  /** The three-value constructor and channel iteration are inverse. */
  lemma ChannelsRoundTrip(c: Color, s: seq<int>)
    requires |s| == 3
    ensures FromChannels(Channels(c)) == c
    ensures Channels(FromChannels(s)) == s
  {
  }

  /** Binary `+ - * /` between colours, channel by channel; division
      truncates and needs nonzero channels in the divisor. */
  function Zip(a: Color, op: Op, b: Color): (c: Color)
    requires op == Over ==> b.r != 0 && b.g != 0 && b.b != 0
    ensures forall i :: 0 <= i < 3 ==> Channels(c)[i] == ApplyOp(op, Channels(a)[i], Channels(b)[i])
  {
    Color(ApplyOp(op, a.r, b.r), ApplyOp(op, a.g, b.g), ApplyOp(op, a.b, b.b))
  }

  /** Binary `*` and `/` with a scalar, channel by channel. */
  function Scale(a: Color, op: Op, s: int): (c: Color)
    requires op == Times || op == Over
    requires op == Over ==> s != 0
    ensures forall i :: 0 <= i < 3 ==> Channels(c)[i] == ApplyOp(op, Channels(a)[i], s)
  {
    Color(ApplyOp(op, a.r, s), ApplyOp(op, a.g, s), ApplyOp(op, a.b, s))
  }

  /** Scaling by a scalar is the channel-wise operation with a grey colour
      of that value. */
  lemma ScaleIsZipWithGrey(a: Color, op: Op, s: int)
    requires op == Times || op == Over
    requires op == Over ==> s != 0
    ensures Scale(a, op, s) == Zip(a, op, Grey(s))
  {
  }

  /** Subtraction undoes addition; division by a colour without zero
      channels undoes multiplication by it. */
  lemma ZipInverse(a: Color, b: Color)
    ensures Zip(Zip(a, Plus, b), Minus, b) == a
    ensures b.r != 0 && b.g != 0 && b.b != 0 ==> Zip(Zip(a, Times, b), Over, b) == a
  {
    if b.r != 0 && b.g != 0 && b.b != 0 {
      CDivCancel(a.r, b.r);
      CDivCancel(a.g, b.g);
      CDivCancel(a.b, b.b);
    }
  }

  /** `length()`: r² + g² + b², with no square root. It is never negative
      and is 0 only for black. */
  function Length(c: Color): (l: int)
    ensures l >= 0
    ensures l == 0 <==> c == Grey(0)
  {
    Square(c.r);
    Square(c.g);
    Square(c.b);
    c.r * c.r + c.g * c.g + c.b * c.b
  }

  lemma Square(v: int)
    ensures v * v >= 0 && (v * v == 0 <==> v == 0)
  {
  }

  /** `absSum()` and the friend `magnitude`: |r| + |g| + |b|. */
  function AbsSum(c: Color): (l: nat)
    ensures l == 0 <==> c == Grey(0)
    ensures l * l >= Length(c)
  {
    AbsSquare(c.r);
    AbsSquare(c.g);
    AbsSquare(c.b);
    SquareOfSum(Abs(c.r), Abs(c.g), Abs(c.b));
    Abs(c.r) + Abs(c.g) + Abs(c.b)
  }

  lemma SquareOfSum(a: nat, b: nat, c: nat)
    ensures (a + b + c) * (a + b + c) >= a * a + b * b + c * c
  {
    assert (a + b + c) * (a + b + c) == a * a + b * b + c * c + 2 * (a * b + b * c + a * c);
  }

  lemma AbsSquare(v: int)
    ensures Abs(v) * Abs(v) == v * v
  {
  }

  /** `operator==`: all three channels equal. */
  predicate Equal(a: Color, b: Color)
  {
    a.r == b.r && a.g == b.g && a.b == b.b
  }

  /** `==` is equality of colours, and `!=` its negation. */
  lemma EqualIffSame(a: Color, b: Color)
    ensures Equal(a, b) <==> a == b
    ensures !Equal(a, b) <==> a != b
  {
  }

  /** `operator<`; `<=`, `>`, `>=` compare `length()` the same way. */
  predicate Less(a: Color, b: Color)
  {
    Length(a) < Length(b)
  }

  /** The order by `length()` is a strict weak order: irreflexive and
      transitive, and two colours are incomparable exactly when their
      lengths agree, which distinct colours can. */
  lemma LessIsWeakOrder(a: Color, b: Color, c: Color)
    ensures !Less(a, a)
    ensures Less(a, b) && Less(b, c) ==> Less(a, c)
    ensures !Less(a, b) && !Less(b, a) <==> Length(a) == Length(b)
  {
  }

  /** Kept as written: red and green are different colours, yet neither
      is `<` the other and each is `<=` the other. */
  lemma DistinctButIncomparable()
    ensures Color(1, 0, 0) != Color(0, 1, 0)
    ensures !Less(Color(1, 0, 0), Color(0, 1, 0)) && !Less(Color(0, 1, 0), Color(1, 0, 0))
    ensures Length(Color(1, 0, 0)) <= Length(Color(0, 1, 0)) && Length(Color(0, 1, 0)) <= Length(Color(1, 0, 0))
  {
  }

  /** `swap` (member and friend): both colours trade all three channels. */
  function Swap(a: Color, b: Color): (p: (Color, Color))
    ensures Channels(p.0) == Channels(b) && Channels(p.1) == Channels(a)
  {
    (Color(b.r, b.g, b.b), Color(a.r, a.g, a.b))
  }

  /** Swapping twice restores both colours. */
  lemma SwapTwice(a: Color, b: Color)
    ensures Swap(Swap(a, b).0, Swap(a, b).1) == (a, b)
  {
  }
}
