/** `convertPixelToFlat` and `convertFlatToPixel`: the kernel every image
    exporter and importer goes through. A sequence of pixel elements is
    written to, or read from, an interleaved flat array of channel values,
    converting each value and padding missing channels.

    The channel convertor is a parameter: `PixelConvert.Convert` for a
    given pair of types, or any other function.
 */
module Marshal {
  import opened ChannelView
  import opened Numeric
  import opened Wrappers

  /** One pixel's block of the flat array: its first dc channels
      converted, then the converted pad for channels it does not have. */
  function FlatOne<A, B>(cs: seq<A>, dc: nat, cpad: B, conv: A -> B): (r: seq<B>)
    ensures |r| == dc
    ensures forall c :: 0 <= c < dc ==> r[c] == if c < |cs| then conv(cs[c]) else cpad
    decreases dc
  {
    if dc == 0 then []
    else if |cs| == 0 then [cpad] + FlatOne(cs, dc - 1, cpad, conv)
    else [conv(cs[0])] + FlatOne(cs[1..], dc - 1, cpad, conv)
  }

  /** `convertPixelToFlat(begin, end, dst, dc, pad)`: the pad is converted
      once, and each pixel contributes exactly dc values. */
  function PixelToFlat<A, B>(ps: seq<Element<A>>, dc: nat, pad: A, conv: A -> B): (r: seq<B>)
    ensures |r| == |ps| * dc
  {
    if |ps| == 0 then []
    else
      MulStep(|ps| - 1, dc);
      FlatOne(Channels(ps[0]), dc, conv(pad), conv) + PixelToFlat(ps[1..], dc, pad, conv)
  }

  /** Every value of the flat array is an output of the convertor, so a
      property of all its outputs holds of every flat value. */
  lemma {:induction false} PixelToFlatAll<A, B>(ps: seq<Element<A>>, dc: nat, pad: A, conv: A -> B, P: B -> bool)
    requires forall x :: P(conv(x))
    ensures forall k :: 0 <= k < |PixelToFlat(ps, dc, pad, conv)| ==> P(PixelToFlat(ps, dc, pad, conv)[k])
  {
    if |ps| > 0 {
      var block := FlatOne(Channels(ps[0]), dc, conv(pad), conv);
      var rest := PixelToFlat(ps[1..], dc, pad, conv);
      PixelToFlatAll(ps[1..], dc, pad, conv, P);
      assert forall k :: 0 <= k < |block| ==> P(block[k]);
      assert PixelToFlat(ps, dc, pad, conv) == block + rest;
    }
  }

  lemma MulStep(a: nat, k: nat)
    ensures (a + 1) * k == k + a * k
  {
  }

  /** One step of the pixel walk: the first pixel's block, then the rest. */
  lemma PixelToFlatStep<A, B>(ps: seq<Element<A>>, dc: nat, pad: A, conv: A -> B, i: nat)
    requires i < |ps|
    ensures PixelToFlat(ps[i..], dc, pad, conv) ==
              FlatOne(Channels(ps[i]), dc, conv(pad), conv) + PixelToFlat(ps[i + 1..], dc, pad, conv)
  {
    assert ps[i..][0] == ps[i];
    assert ps[i..][1..] == ps[i + 1..];
  }

  /** Channel c of pixel i lands at i * dc + c: converted when the pixel
      has that channel, the converted pad otherwise. */
  lemma {:induction false} PixelToFlatAt<A, B>(ps: seq<Element<A>>, dc: nat, pad: A, conv: A -> B, i: nat, c: nat)
    requires i < |ps| && c < dc
    ensures i * dc + c < |PixelToFlat(ps, dc, pad, conv)|
    ensures PixelToFlat(ps, dc, pad, conv)[i * dc + c] ==
              if c < Size(ps[i]) then conv(Channels(ps[i])[c]) else conv(pad)
  {
    var block := FlatOne(Channels(ps[0]), dc, conv(pad), conv);
    var rest := PixelToFlat(ps[1..], dc, pad, conv);
    assert PixelToFlat(ps, dc, pad, conv) == block + rest;
    if i == 0 {
      MulLe(1, |ps|, dc);
    } else {
      assert ps[1..][i - 1] == ps[i];
      PixelToFlatAt(ps[1..], dc, pad, conv, i - 1, c);
      BlockIndex(i, dc, c);
      CatRight(PixelToFlat(ps, dc, pad, conv), block, rest, i * dc + c, (i - 1) * dc + c,
               if c < Size(ps[i]) then conv(Channels(ps[i])[c]) else conv(pad));
    }
  }

  /** Past the end of a, a + b is b. */
  lemma CatRight<T>(r: seq<T>, a: seq<T>, b: seq<T>, x: int, m: nat, v: T)
    requires r == a + b && x == |a| + m && m < |b| && b[m] == v
    ensures 0 <= x < |r| && r[x] == v
  {
  }

  lemma BlockIndex(i: nat, dc: nat, c: nat)
    requires i >= 1
    ensures 0 <= (i - 1) * dc
    ensures i * dc + c == dc + ((i - 1) * dc + c)
  {
  }

  /** The loops of `convertPixelToFlat`: per source pixel, copy while both
      the channel iterator and the count allow, then pad up to dc. */
  method ConvertPixelToFlat<A, B>(ps: seq<Element<A>>, dc: nat, pad: A, conv: A -> B) returns (out: seq<B>)
    ensures out == PixelToFlat(ps, dc, pad, conv)
  {
    var cpad := conv(pad);
    out := [];
    var i := 0;
    while i < |ps|
      invariant 0 <= i <= |ps|
      invariant PixelToFlat(ps, dc, pad, conv) == out + PixelToFlat(ps[i..], dc, pad, conv)
    {
      var block := CopyBlock(Channels(ps[i]), dc, cpad, conv);
      PixelToFlatStep(ps, dc, pad, conv, i);
      out := out + block;
      i := i + 1;
    }
    assert ps[i..] == [];
  }

  /** One pixel's pass of `convertPixelToFlat`. */
  method CopyBlock<A, B>(cs: seq<A>, dc: nat, cpad: B, conv: A -> B) returns (block: seq<B>)
    ensures block == FlatOne(cs, dc, cpad, conv)
  {
    block := [];
    var count := 0;
    while count < |cs| && count < dc
      invariant count <= |cs| && count <= dc
      invariant |block| == count
      invariant forall k :: 0 <= k < count ==> block[k] == conv(cs[k])
    {
      block := block + [conv(cs[count])];
      count := count + 1;
    }
    while count < dc
      invariant count <= dc && |block| == count
      invariant forall k :: 0 <= k < count ==> block[k] == if k < |cs| then conv(cs[k]) else cpad
    {
      block := block + [cpad];
      count := count + 1;
    }
  }

  /** The source cursor position where element j starts reading: the
      cursor advances once per channel of each destination element. */
  function Offset<B>(dst: seq<Element<B>>, j: nat): nat
    requires j <= |dst|
  {
    if j == 0 then 0 else Size(dst[0]) + Offset(dst[1..], j - 1)
  }

  /** Every value `convertFlatToPixel` dereferences exists: element j reads
      min(its channel count, sc) values from its cursor position. */
  predicate ReadsFit<A, B>(src: seq<A>, pos: nat, sc: nat, dst: seq<Element<B>>)
    decreases |dst|
  {
    |dst| == 0 ||
    (pos + Min(Size(dst[0]), sc) <= |src| && ReadsFit(src, pos + Size(dst[0]), sc, dst[1..]))
  }

  /** The n channel values of one destination element read from src at
      pos: the first sc converted from the source, the rest the pad as it
      is (this direction does not convert the pad). */
  function UnflatOne<A, B>(src: seq<A>, pos: nat, sc: nat, n: nat, pad: B, conv: A -> B): (r: seq<B>)
    requires pos + Min(n, sc) <= |src|
    ensures |r| == n
    ensures forall k :: 0 <= k < n ==> r[k] == if k < sc then conv(src[pos + k]) else pad
  {
    if n == 0 then []
    else UnflatOne(src, pos, sc, n - 1, pad, conv) + [if n - 1 < sc then conv(src[pos + n - 1]) else pad]
  }

  /** `convertFlatToPixel(src, sc, begin, end, pad)` from cursor pos: each
      destination element keeps its shape and receives its channels. */
  function FlatToPixel<A, B>(src: seq<A>, pos: nat, sc: nat, dst: seq<Element<B>>, pad: B, conv: A -> B): (r: seq<Element<B>>)
    requires ReadsFit(src, pos, sc, dst)
    ensures |r| == |dst|
    decreases |dst|
  {
    if |dst| == 0 then []
    else
      [WithChannels(dst[0], UnflatOne(src, pos, sc, Size(dst[0]), pad, conv))]
      + FlatToPixel(src, pos + Size(dst[0]), sc, dst[1..], pad, conv)
  }

  /** Element j of the result keeps the kind and channel count of the
      destination element it was written into. */
  lemma {:induction false} FlatToPixelShape<A, B>(src: seq<A>, pos: nat, sc: nat, dst: seq<Element<B>>, pad: B, conv: A -> B, j: nat)
    requires ReadsFit(src, pos, sc, dst) && j < |dst|
    ensures Size(FlatToPixel(src, pos, sc, dst, pad, conv)[j]) == Size(dst[j])
    ensures FlatToPixel(src, pos, sc, dst, pad, conv)[j].Scalar? <==> dst[j].Scalar?
    decreases |dst|
  {
    FlatToPixelStep(src, pos, sc, dst, pad, conv);
    var r := FlatToPixel(src, pos, sc, dst, pad, conv);
    var cs := UnflatOne(src, pos, sc, Size(dst[0]), pad, conv);
    var rest := FlatToPixel(src, pos + Size(dst[0]), sc, dst[1..], pad, conv);
    if j == 0 {
      assert r[0] == WithChannels(dst[0], cs);
      WithChannelsRoundTrip(dst[0], cs);
    } else {
      assert r[j] == rest[j - 1];
      assert dst[1..][j - 1] == dst[j];
      FlatToPixelShape(src, pos + Size(dst[0]), sc, dst[1..], pad, conv, j - 1);
    }
  }

  /** Channel c of element j is source value Offset(dst, j) + c converted
      when c < sc, and the raw pad otherwise. */
  lemma {:induction false} FlatToPixelAt<A, B>(src: seq<A>, pos: nat, sc: nat, dst: seq<Element<B>>, pad: B, conv: A -> B, j: nat, c: nat)
    requires ReadsFit(src, pos, sc, dst)
    requires j < |dst| && c < Size(dst[j])
    ensures Size(FlatToPixel(src, pos, sc, dst, pad, conv)[j]) == Size(dst[j])
    ensures c < sc ==> pos + Offset(dst, j) + c < |src|
    ensures Channels(FlatToPixel(src, pos, sc, dst, pad, conv)[j])[c] ==
              if c < sc then conv(src[pos + Offset(dst, j) + c]) else pad
    decreases |dst|
  {
    if j == 0 {
      FirstElementAt(src, pos, sc, dst, pad, conv, c);
    } else {
      FlatToPixelShape(src, pos, sc, dst, pad, conv, j);
      FlatToPixelStep(src, pos, sc, dst, pad, conv);
      var k := pos + Size(dst[0]);
      var r := FlatToPixel(src, pos, sc, dst, pad, conv);
      var rest := FlatToPixel(src, k, sc, dst[1..], pad, conv);
      assert r[j] == rest[j - 1];
      assert dst[1..][j - 1] == dst[j];
      FlatToPixelAt(src, k, sc, dst[1..], pad, conv, j - 1, c);
      assert pos + Offset(dst, j) + c == k + Offset(dst[1..], j - 1) + c;
      assert Channels(r[j])[c] == Channels(rest[j - 1])[c];
    }
  }

  /** FlatToPixelAt for the first element, read at the cursor itself. */
  lemma FirstElementAt<A, B>(src: seq<A>, pos: nat, sc: nat, dst: seq<Element<B>>, pad: B, conv: A -> B, c: nat)
    requires ReadsFit(src, pos, sc, dst)
    requires 0 < |dst| && c < Size(dst[0])
    ensures Size(FlatToPixel(src, pos, sc, dst, pad, conv)[0]) == Size(dst[0])
    ensures c < sc ==> pos + c < |src|
    ensures Channels(FlatToPixel(src, pos, sc, dst, pad, conv)[0])[c] ==
              if c < sc then conv(src[pos + c]) else pad
  {
    FlatToPixelStep(src, pos, sc, dst, pad, conv);
    var cs := UnflatOne(src, pos, sc, Size(dst[0]), pad, conv);
    assert FlatToPixel(src, pos, sc, dst, pad, conv)[0] == WithChannels(dst[0], cs);
    WithChannelsRoundTrip(dst[0], cs);
  }

  /** One step of the destination walk: the first element, then the rest
      from the advanced cursor. */
  lemma FlatToPixelStep<A, B>(src: seq<A>, pos: nat, sc: nat, dst: seq<Element<B>>, pad: B, conv: A -> B)
    requires ReadsFit(src, pos, sc, dst) && |dst| > 0
    ensures pos + Min(Size(dst[0]), sc) <= |src|
    ensures ReadsFit(src, pos + Size(dst[0]), sc, dst[1..])
    ensures FlatToPixel(src, pos, sc, dst, pad, conv) ==
              [WithChannels(dst[0], UnflatOne(src, pos, sc, Size(dst[0]), pad, conv))]
              + FlatToPixel(src, pos + Size(dst[0]), sc, dst[1..], pad, conv)
  {
  }

  /** The inner loop of `convertFlatToPixel` for one destination element
      of n channels: each channel either converts the value under the
      cursor or takes the pad, and the cursor moves on in both cases. */
  method ReadElement<A, B>(src: seq<A>, pos: nat, sc: nat, n: nat, pad: B, conv: A -> B) returns (cs: seq<B>)
    requires pos + Min(n, sc) <= |src|
    ensures cs == UnflatOne(src, pos, sc, n, pad, conv)
  {
    cs := [];
    var count := 0;
    while count < n
      invariant count <= n && |cs| == count
      invariant forall k :: 0 <= k < count ==> cs[k] == if k < sc then conv(src[pos + k]) else pad
    {
      if count < sc {
        cs := cs + [conv(src[pos + count])];
      } else {
        cs := cs + [pad];
      }
      count := count + 1;
    }
  }

  /** The loops of `convertFlatToPixel`: per destination element, one pass
      over its channels that advances the source cursor every time. */
  method ConvertFlatToPixel<A, B>(src: seq<A>, sc: nat, dst: seq<Element<B>>, pad: B, conv: A -> B) returns (r: seq<Element<B>>)
    requires ReadsFit(src, 0, sc, dst)
    ensures r == FlatToPixel(src, 0, sc, dst, pad, conv)
  {
    r := [];
    var pos: nat := 0;
    var j := 0;
    assert dst[j..] == dst;
    while j < |dst|
      invariant 0 <= j <= |dst|
      invariant ReadsFit(src, pos, sc, dst[j..])
      invariant FlatToPixel(src, 0, sc, dst, pad, conv) == r + FlatToPixel(src, pos, sc, dst[j..], pad, conv)
    {
      ReadsFitHead(src, pos, sc, dst, j);
      var cs := ReadElement(src, pos, sc, Size(dst[j]), pad, conv);
      ConvertStep(src, sc, dst, pad, conv, j, pos, r, cs);
      r := r + [WithChannels(dst[j], cs)];
      pos := pos + Size(dst[j]);
      j := j + 1;
    }
  }

  lemma ReadsFitHead<A, B>(src: seq<A>, pos: nat, sc: nat, dst: seq<Element<B>>, j: nat)
    requires j < |dst| && ReadsFit(src, pos, sc, dst[j..])
    ensures pos + Min(Size(dst[j]), sc) <= |src|
  {
    assert dst[j..][0] == dst[j];
  }

  /** The outer loop's invariant survives one destination element. */
  lemma ConvertStep<A, B>(src: seq<A>, sc: nat, dst: seq<Element<B>>, pad: B, conv: A -> B, j: nat, pos: nat,
                          r: seq<Element<B>>, cs: seq<B>)
    requires ReadsFit(src, 0, sc, dst)
    requires j < |dst| && ReadsFit(src, pos, sc, dst[j..])
    requires FlatToPixel(src, 0, sc, dst, pad, conv) == r + FlatToPixel(src, pos, sc, dst[j..], pad, conv)
    requires pos + Min(Size(dst[j]), sc) <= |src| && cs == UnflatOne(src, pos, sc, Size(dst[j]), pad, conv)
    ensures ReadsFit(src, pos + Size(dst[j]), sc, dst[j + 1..])
    ensures FlatToPixel(src, 0, sc, dst, pad, conv) ==
              (r + [WithChannels(dst[j], cs)]) + FlatToPixel(src, pos + Size(dst[j]), sc, dst[j + 1..], pad, conv)
  {
    var rest := dst[j..];
    assert rest[0] == dst[j] && rest[1..] == dst[j + 1..];
    FlatToPixelStep(src, pos, sc, rest, pad, conv);
    Regroup(FlatToPixel(src, 0, sc, dst, pad, conv), r, FlatToPixel(src, pos, sc, rest, pad, conv),
            WithChannels(dst[j], cs), FlatToPixel(src, pos + Size(dst[j]), sc, dst[j + 1..], pad, conv));
  }

  lemma Regroup<T>(t: seq<T>, r: seq<T>, x: seq<T>, h: T, y: seq<T>)
    requires t == r + x && x == [h] + y
    ensures t == (r + [h]) + y
  {
  }

  /** All elements have exactly n channels. */
  predicate Uniform<V>(es: seq<Element<V>>, n: nat)
  {
    forall j :: 0 <= j < |es| ==> Size(es[j]) == n
  }

  /** With uniform elements the cursor of element j is j * n. */
  lemma {:induction false} UniformOffset<B>(dst: seq<Element<B>>, n: nat, j: nat)
    requires Uniform(dst, n) && j <= |dst|
    ensures Offset(dst, j) == j * n
  {
    if j > 0 {
      UniformOffset(dst[1..], n, j - 1);
    }
  }

  /** A flat array of |dst| * sc values covers every read when the
      elements have exactly sc channels. */
  lemma {:induction false} UniformReadsFit<A, B>(src: seq<A>, pos: nat, sc: nat, dst: seq<Element<B>>)
    requires Uniform(dst, sc) && pos + |dst| * sc <= |src|
    ensures ReadsFit(src, pos, sc, dst)
    decreases |dst|
  {
    if |dst| > 0 {
      assert |dst| * sc == sc + (|dst| - 1) * sc;
      UniformReadsFit(src, pos + sc, sc, dst[1..]);
    }
  }

  /** Flattening pixels of n channels and reading them back into elements
      of the same shape, with a convertor undone by the other, gives the
      pixels back. */
  lemma RoundTrip<A, B>(ps: seq<Element<A>>, dst: seq<Element<A>>, n: nat, pad: A, pad2: A, f: A -> B, g: B -> A)
    requires |ps| == |dst| && Uniform(ps, n) && Uniform(dst, n)
    requires forall j :: 0 <= j < |ps| ==> (ps[j].Scalar? <==> dst[j].Scalar?)
    requires forall x :: g(f(x)) == x
    ensures ReadsFit(PixelToFlat(ps, n, pad, f), 0, n, dst)
    ensures FlatToPixel(PixelToFlat(ps, n, pad, f), 0, n, dst, pad2, g) == ps
  {
    var flat := PixelToFlat(ps, n, pad, f);
    UniformReadsFit(flat, 0, n, dst);
    var r := FlatToPixel(flat, 0, n, dst, pad2, g);
    forall j | 0 <= j < |ps|
      ensures r[j] == ps[j]
    {
      RoundTripElement(ps, dst, n, pad, pad2, f, g, j);
    }
  }

  lemma RoundTripElement<A, B>(ps: seq<Element<A>>, dst: seq<Element<A>>, n: nat, pad: A, pad2: A, f: A -> B, g: B -> A, j: nat)
    requires |ps| == |dst| && Uniform(ps, n) && Uniform(dst, n)
    requires j < |ps| && (ps[j].Scalar? <==> dst[j].Scalar?)
    requires forall x :: g(f(x)) == x
    requires ReadsFit(PixelToFlat(ps, n, pad, f), 0, n, dst)
    ensures FlatToPixel(PixelToFlat(ps, n, pad, f), 0, n, dst, pad2, g)[j] == ps[j]
  {
    var flat := PixelToFlat(ps, n, pad, f);
    var r := FlatToPixel(flat, 0, n, dst, pad2, g);
    FlatToPixelShape(flat, 0, n, dst, pad2, g, j);
    forall c | 0 <= c < n
      ensures Channels(r[j])[c] == Channels(ps[j])[c]
    {
      RoundTripChannel(ps, dst, n, pad, pad2, f, g, j, c);
    }
    assert Channels(r[j]) == Channels(ps[j]);
    ShapeDeterminesElement(r[j], ps[j]);
  }

  lemma RoundTripChannel<A, B>(ps: seq<Element<A>>, dst: seq<Element<A>>, n: nat, pad: A, pad2: A, f: A -> B, g: B -> A, j: nat, c: nat)
    requires |ps| == |dst| && Uniform(ps, n) && Uniform(dst, n)
    requires j < |ps| && c < n
    requires forall x :: g(f(x)) == x
    requires ReadsFit(PixelToFlat(ps, n, pad, f), 0, n, dst)
    ensures Size(FlatToPixel(PixelToFlat(ps, n, pad, f), 0, n, dst, pad2, g)[j]) == n
    ensures Channels(FlatToPixel(PixelToFlat(ps, n, pad, f), 0, n, dst, pad2, g)[j])[c] == Channels(ps[j])[c]
  {
    ChannelThrough(ps, n, pad, f, dst, pad2, g, j, c);
    var x := Channels(ps[j])[c];
    Undo(f, g, x, f(x), g(f(x)));
  }

  /** Flattening n-channel pixels and reading them back into n-channel
      elements takes channel c of pixel j through f and then g. */
  lemma ChannelThrough<A, B, C>(ps: seq<Element<A>>, n: nat, pad: A, f: A -> B, dst: seq<Element<C>>, pad2: C, g: B -> C, j: nat, c: nat)
    requires |ps| == |dst| && Uniform(ps, n) && Uniform(dst, n)
    requires j < |ps| && c < n
    ensures ReadsFit(PixelToFlat(ps, n, pad, f), 0, n, dst)
    ensures Size(FlatToPixel(PixelToFlat(ps, n, pad, f), 0, n, dst, pad2, g)[j]) == n
    ensures Channels(FlatToPixel(PixelToFlat(ps, n, pad, f), 0, n, dst, pad2, g)[j])[c] == g(f(Channels(ps[j])[c]))
  {
    var flat := PixelToFlat(ps, n, pad, f);
    UniformReadsFit(flat, 0, n, dst);
    UniformRead(flat, n, dst, pad2, g, j, c);
    PixelToFlatAt(ps, n, pad, f, j, c);
    assert Size(ps[j]) == n;
  }

  /** A value sent through f and then through an inverse g of f is back. */
  lemma Undo<A, B>(f: A -> B, g: B -> A, x: A, y: B, z: A)
    requires forall x :: g(f(x)) == x
    requires y == f(x) && z == g(y)
    ensures z == x
  {
  }

  /** With uniform n-channel elements and sc == n, channel c of element j
      is the converted value at j * n + c. */
  lemma UniformRead<A, B>(flat: seq<A>, n: nat, dst: seq<Element<B>>, pad: B, conv: A -> B, j: nat, c: nat)
    requires Uniform(dst, n) && ReadsFit(flat, 0, n, dst)
    requires j < |dst| && c < n
    ensures j * n + c < |flat|
    ensures Size(FlatToPixel(flat, 0, n, dst, pad, conv)[j]) == n
    ensures Channels(FlatToPixel(flat, 0, n, dst, pad, conv)[j])[c] == conv(flat[j * n + c])
  {
    UniformOffset(dst, n, j);
    FlatToPixelAt(flat, 0, n, dst, pad, conv, j, c);
    assert 0 + Offset(dst, j) + c == j * n + c;
  }

  /** Two elements of the same kind with the same channels are equal. */
  lemma ShapeDeterminesElement<V>(x: Element<V>, y: Element<V>)
    requires (x.Scalar? <==> y.Scalar?) && Channels(x) == Channels(y)
    ensures x == y
  {
    if x.Scalar? {
      assert [x.value] == [y.value];
    }
  }

  /** Reading a stream of sc values per pixel into elements of more
      channels pads them with the raw pad; the flattening direction instead
      writes the converted pad. */
  lemma PadOnUnflatten<A, B>(src: seq<A>, sc: nat, dst: seq<Element<B>>, n: nat, pad: B, conv: A -> B, j: nat, c: nat)
    requires Uniform(dst, n) && sc <= n && |dst| * n <= |src|
    requires j < |dst| && sc <= c < n
    ensures ReadsFit(src, 0, sc, dst)
    ensures Size(FlatToPixel(src, 0, sc, dst, pad, conv)[j]) == n
    ensures Channels(FlatToPixel(src, 0, sc, dst, pad, conv)[j])[c] == pad
  {
    FitsWithFewerReads(src, 0, sc, n, dst);
    FlatToPixelAt(src, 0, sc, dst, pad, conv, j, c);
  }

  lemma {:induction false} FitsWithFewerReads<A, B>(src: seq<A>, pos: nat, sc: nat, n: nat, dst: seq<Element<B>>)
    requires Uniform(dst, n) && sc <= n && pos + |dst| * n <= |src|
    ensures ReadsFit(src, pos, sc, dst)
    decreases |dst|
  {
    if |dst| > 0 {
      assert |dst| * n == n + (|dst| - 1) * n;
      FitsWithFewerReads(src, pos + n, sc, n, dst[1..]);
    }
  }

  /** A one-channel stream of two values read into two three-channel
      elements: the cursor has moved three places before the second
      element, past the end of the stream. */
  lemma OneIntoThreeOverreads<V>(a: V, b: V, x: V)
    ensures !ReadsFit([a, b], 0, 1, [Aggregate([x, x, x]), Aggregate([x, x, x])])
  {
    var dst := [Aggregate([x, x, x]), Aggregate([x, x, x])];
    assert Size(dst[0]) == 3;
    assert dst[1..] == [Aggregate([x, x, x])];
  }

  /** A four-channel stream read into three-channel elements: the second
      element starts at the first pixel's fourth value, not at the second
      pixel's first. */
  lemma FourIntoThreeMisaligns()
    ensures ReadsFit([0, 1, 2, 3, 4, 5, 6, 7], 0, 4, [Aggregate([0, 0, 0]), Aggregate([0, 0, 0])])
    ensures FlatToPixel([0, 1, 2, 3, 4, 5, 6, 7], 0, 4, [Aggregate([0, 0, 0]), Aggregate([0, 0, 0])], 0, x => x)
            == [Aggregate([0, 1, 2]), Aggregate([3, 4, 5])]
  {
    var src := [0, 1, 2, 3, 4, 5, 6, 7];
    var dst := [Aggregate([0, 0, 0]), Aggregate([0, 0, 0])];
    assert Size(dst[0]) == 3 && Size(dst[1]) == 3;
    assert dst[1..] == [Aggregate([0, 0, 0])];
    var id := (x: int) => x;
    assert UnflatOne(src, 0, 4, 3, 0, id) == [0, 1, 2];
    assert UnflatOne(src, 3, 4, 3, 0, id) == [3, 4, 5];
  }

  /** Words that repeat the defined flat array of n-channel pixels, read
      back into n-channel elements with a convertor that keeps channel c
      of pixel j as it is, give that channel back. */
  lemma ReadBackAt<A>(ps: seq<Element<A>>, n: nat, pad: A, f: A -> Option<A>, words: seq<A>,
                      dst: seq<Element<Option<A>>>, pad2: Option<A>, j: nat, c: nat)
    requires Uniform(ps, n) && Uniform(dst, n) && |dst| == |ps|
    requires j < |ps| && c < n && f(Channels(ps[j])[c]) == Some(Channels(ps[j])[c])
    requires var flat := PixelToFlat(ps, n, pad, f);
             |words| == |flat| && forall i :: 0 <= i < |flat| ==> flat[i].Some? && words[i] == flat[i].value
    ensures ReadsFit(words, 0, n, dst)
    ensures var back := FlatToPixel(words, 0, n, dst, pad2, f);
            Size(back[j]) == n && Channels(back[j])[c] == Some(Channels(ps[j])[c])
  {
    var v := Channels(ps[j])[c];
    var flat := PixelToFlat(ps, n, pad, f);
    PixelToFlatAt(ps, n, pad, f, j, c);
    assert c < Size(ps[j]);
    assert flat[j * n + c] == Some(v);
    assert words[j * n + c] == v;
    UniformReadsFit(words, 0, n, dst);
    UniformRead(words, n, dst, pad2, f, j, c);
  }

  /** Elements of n channels read from a stream of sc >= n values per
      pixel take n values each: the reads fit exactly when the stream
      holds n values for every element. */
  lemma {:induction false} UniformReadsFitIff<A, B>(src: seq<A>, pos: nat, sc: nat, n: nat, dst: seq<Element<B>>)
    requires Uniform(dst, n) && n <= sc
    ensures ReadsFit(src, pos, sc, dst) <==> |dst| == 0 || pos + |dst| * n <= |src|
    decreases |dst|
  {
    if |dst| > 0 {
      assert Size(dst[0]) == n && Min(n, sc) == n;
      assert |dst| * n == n + (|dst| - 1) * n;
      UniformReadsFitIff(src, pos + n, sc, n, dst[1..]);
    }
  }
}
