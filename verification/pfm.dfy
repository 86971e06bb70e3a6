/** The Portable Float Map codec: "PF" colour maps of three channels and
    "Pf" grey maps of one channel, 32-bit floating-point samples after a
    text header whose last field, the scale, gives the byte order by its
    sign.

    As in the PPM model, a file is the sequence of its bytes, and `Ok(None)`
    stands for a call that returns but leaves what it stores unspecified.
    Samples are reals; the bit pattern a float is stored as is a parameter
    (`bits` on export, `value` on import), because the IEEE 754
    single-precision format itself is not part of this model.
 */
module Pfm {
  import opened Numeric
  import opened Wrappers
  import opened ChannelView
  import opened PixelConvert
  import opened HeaderScan
  import Marshal
  import Endian
  import Buffer2D
  import Codec

  /** The scale the exporter writes: -1 as "%f" prints it. Its sign marks
      the data little-endian. */
  const MinusOne: string := "-1.000000"

  /** 2^31: the values of a 32-bit `int` are the integers below it. */
  const IntLimit: nat := 0x8000_0000

  lemma IntLimitIsPow2()
    ensures IntLimit == Pow2(31) && Pow2(32) == 2 * IntLimit
  {
    assert Pow2(7) == 128 && Pow2(8) == 256;
    Pow2Add(8, 8);
    Pow2Add(16, 8);
    Pow2Add(24, 7);
    Pow2Doubles(32);
  }

  /** The header the exporter prints: "PF", a newline, width, a space,
      height, a newline, the scale, a newline. */
  function HeaderText(w: nat, h: nat): string
  {
    HeaderOf('F', Decimal(w), Decimal(h))
  }

  /** The exporter's header layout around a type character and two printed
      numbers. */
  function HeaderOf(typeChar: char, dw: string, dh: string): string
  {
    ['P', typeChar, '\n'] + dw + [' '] + dh + ['\n'] + MinusOne + ['\n']
  }

  /** What the importer's three `fscanf` calls read: the type character,
      the dimensions as `int`, the scale, and where the samples start. */
  datatype Header = Header(typeChar: char, width: int, height: int, scale: real, dataStart: nat)

  /** "%d%c%d%c": width, one character, height, one character. */
  function ScanDims(s: string, pos: nat): (r: Option<(int, int, nat)>)
    requires pos <= |s|
    ensures r.Some? ==> pos < r.value.2 <= |s|
  {
    var width :- ScanInt(s, pos);
    var dummy1 :- ScanChar(s, width.1);
    var height :- ScanInt(s, dummy1.1);
    var dummy2 :- ScanChar(s, height.1);
    Some((width.0, height.0, dummy2.1))
  }

  /** "%g%c": the scale and one character. */
  function ScanScale(s: string, pos: nat): (r: Option<(real, nat)>)
    requires pos <= |s|
    ensures r.Some? ==> pos < r.value.1 <= |s|
  {
    var scale :- ScanReal(s, pos);
    var dummy :- ScanChar(s, scale.1);
    Some((scale.0, dummy.1))
  }

  /** The header scan: "P%c%c", comments, "%d%c%d%c", comments, "%g%c".
      None when any of the eight conversions fails, which is exactly when
      the importer's count differs from 8. */
  function ParseHeader(s: string): (r: Option<Header>)
    ensures r.Some? ==> 2 < |s| && s[0] == 'P' && r.value.typeChar == s[1]
    ensures r.Some? ==> 3 < r.value.dataStart <= |s|
  {
    var magic :- ScanMagic(s);
    ParseAfterMagic(s, magic.0, SkipComment(s, magic.1, '#'))
  }

  /** The rest of the header scan once the magic number is read and the
      comments after it are skipped. */
  function ParseAfterMagic(s: string, typeChar: char, pos: nat): (r: Option<Header>)
    requires pos <= |s|
    ensures r.Some? ==> pos < r.value.dataStart <= |s| && r.value.typeChar == typeChar
  {
    var dims :- ScanDims(s, pos);
    ParseAfterDims(s, typeChar, dims.0, dims.1, SkipComment(s, dims.2, '#'))
  }

  /** The last conversion of the header scan, the scale. */
  function ParseAfterDims(s: string, typeChar: char, w: int, h: int, pos: nat): (r: Option<Header>)
    requires pos <= |s|
    ensures r.Some? ==> pos < r.value.dataStart <= |s| && r.value.typeChar == typeChar
  {
    var scale :- ScanScale(s, pos);
    Some(Header(typeChar, w, h, scale.0, scale.1))
  }

  /** The header the exporter prints is read back as a colour map of the
      same dimensions with scale -1, and the data is found right after
      it, whatever follows. */
  lemma ParseHeaderText(w: nat, h: nat, rest: string)
    ensures ParseHeader(HeaderText(w, h) + rest) == Some(Header('F', w, h, -1.0, |HeaderText(w, h)|))
  {
    var dw, dh := Decimal(w), Decimal(h);
    assert HeaderText(w, h) == HeaderOf('F', dw, dh);
    ParseHeaderOf('F', dw, dh, rest);
    assert Header('F', ParseDecimal(dw), ParseDecimal(dh), -1.0, |dw| + |dh| + 15) ==
           Header('F', w, h, -1.0, |HeaderText(w, h)|) by {
      DecimalRoundTrip(w);
      DecimalRoundTrip(h);
    }
  }

  /** A header of the exporter's layout, with any type character and any
      two runs of digits, scans as its fields. */
  lemma ParseHeaderOf(typeChar: char, dw: string, dh: string, rest: string)
    requires DigitRun(dw) && DigitRun(dh)
    ensures ParseHeader(HeaderOf(typeChar, dw, dh) + rest) ==
            Some(Header(typeChar, ParseDecimal(dw), ParseDecimal(dh), -1.0, |dw| + |dh| + 15))
  {
    HeaderLayout(typeChar, dw, dh, rest);
    ParseHeaderAt(HeaderOf(typeChar, dw, dh) + rest, typeChar, dw, dh);
  }

  /** A text of the exporter's header layout scans as its two numbers and
      the scale -1, and the data starts after the newline that ends it. */
  lemma ParseHeaderAt(s: string, typeChar: char, dw: string, dh: string)
    requires DigitRun(dw) && DigitRun(dh)
    requires 3 <= |s| && s[0] == 'P' && s[1] == typeChar && s[2] == '\n'
    requires FieldsAt(s, 3, dw, dh)
    ensures ParseHeader(s) == Some(Header(typeChar, ParseDecimal(dw), ParseDecimal(dh), -1.0, |dw| + |dh| + 15))
  {
    var w: int := ParseDecimal(dw);
    var h: int := ParseDecimal(dh);
    var c := 3 + |dw| + 1 + |dh| + 1;
    FieldsScan(s, 3, dw, dh, w, h, c);
    assert s[3] != '#' by {
      TextAtIff(s, 3, dw);
    }
    HeaderScanned(s, typeChar, w, h, c);
    assert Header(typeChar, w, h, -1.0, c + 10) ==
           Header(typeChar, ParseDecimal(dw), ParseDecimal(dh), -1.0, |dw| + |dh| + 15);
  }

  /** The header scan from the results of its three steps. */
  lemma HeaderScanned(s: string, typeChar: char, w: int, h: int, c: nat)
    requires 3 < |s| && s[0] == 'P' && s[1] == typeChar && s[3] != '#'
    requires c <= |s| && ScanDims(s, 3) == Some((w, h, c)) && SkipComment(s, c, '#') == c
    requires ScaleAt(s, c)
    ensures ParseHeader(s) == Some(Header(typeChar, w, h, -1.0, c + 10))
  {
    assert ScanMagic(s) == Some((typeChar, 3));
    assert SkipComment(s, 3, '#') == 3;
    AfterDims(s, typeChar, w, h, c);
  }

  /** From position a on, s holds the digits dw, a space, the digits dh
      and a newline. */
  predicate DimsAt(s: string, a: nat, dw: string, dh: string)
  {
    TextAt(s, a, dw) && a + |dw| < |s| && s[a + |dw|] == ' ' &&
    TextAt(s, a + |dw| + 1, dh) && a + |dw| + 1 + |dh| < |s| && s[a + |dw| + 1 + |dh|] == '\n'
  }

  /** DimsAt, then the scale text and a newline. */
  predicate FieldsAt(s: string, a: nat, dw: string, dh: string)
  {
    DimsAt(s, a, dw, dh) && ScaleAt(s, a + |dw| + 1 + |dh| + 1)
  }

  /** From position c on, s holds the scale text and a newline. */
  predicate ScaleAt(s: string, c: nat)
  {
    TextAt(s, c, MinusOne) && c + 9 < |s| && s[c + 9] == '\n'
  }

  /** The exporter's header has the layout the importer scans. */
  lemma HeaderLayout(typeChar: char, dw: string, dh: string, rest: string)
    ensures var s := HeaderOf(typeChar, dw, dh) + rest;
            3 <= |s| && s[0] == 'P' && s[1] == typeChar && s[2] == '\n' && FieldsAt(s, 3, dw, dh)
  {
    var s := HeaderOf(typeChar, dw, dh) + rest;
    assert s[3 + |dw|] == ' ' && s[3 + |dw| + 1 + |dh|] == '\n' && s[3 + |dw| + 1 + |dh| + 1 + 9] == '\n';
    WidthTextAt(typeChar, dw, dh, rest);
    HeightTextAt(typeChar, dw, dh, rest);
    ScaleTextAt(typeChar, dw, dh, rest);
  }

  lemma WidthTextAt(typeChar: char, dw: string, dh: string, rest: string)
    ensures TextAt(HeaderOf(typeChar, dw, dh) + rest, 3, dw)
  {
    TextAtIff(HeaderOf(typeChar, dw, dh) + rest, 3, dw);
  }

  lemma HeightTextAt(typeChar: char, dw: string, dh: string, rest: string)
    ensures TextAt(HeaderOf(typeChar, dw, dh) + rest, 3 + |dw| + 1, dh)
  {
    TextAtIff(HeaderOf(typeChar, dw, dh) + rest, 3 + |dw| + 1, dh);
  }

  lemma ScaleTextAt(typeChar: char, dw: string, dh: string, rest: string)
    ensures TextAt(HeaderOf(typeChar, dw, dh) + rest, 3 + |dw| + 1 + |dh| + 1, MinusOne)
  {
    TextAtIff(HeaderOf(typeChar, dw, dh) + rest, 3 + |dw| + 1 + |dh| + 1, MinusOne);
  }

  /** The dimensions scan over the layout of FieldsAt, no comment comes
      before the scale, and the scale text follows. */
  lemma FieldsScan(s: string, a: nat, dw: string, dh: string, w: int, h: int, c: nat)
    requires DigitRun(dw) && DigitRun(dh) && FieldsAt(s, a, dw, dh)
    requires w == ParseDecimal(dw) && h == ParseDecimal(dh) && c == a + |dw| + 1 + |dh| + 1
    ensures c <= |s| && ScaleAt(s, c)
    ensures ScanDims(s, a) == Some((w, h, c))
    ensures SkipComment(s, c, '#') == c
  {
    ScaleStarts(s, c);
    HeaderDims(s, a, dw, dh, w, h, c);
  }

  /** The scale text starts with a minus sign, so no comment precedes it. */
  lemma ScaleStarts(s: string, c: nat)
    requires ScaleAt(s, c)
    ensures c < |s| && SkipComment(s, c, '#') == c
  {
    TextAtIff(s, c, MinusOne);
    assert s[c] == '-';
  }

  /** Two runs of digits, each followed by one character that is not a
      digit, scan under "%d%c%d%c" as the two numbers. */
  lemma HeaderDims(s: string, a: nat, dw: string, dh: string, w: int, h: int, c: nat)
    requires DigitRun(dw) && DigitRun(dh) && DimsAt(s, a, dw, dh)
    requires w == ParseDecimal(dw) && h == ParseDecimal(dh) && c == a + |dw| + 1 + |dh| + 1
    ensures ScanDims(s, a) == Some((w, h, c))
  {
    var e1 := a + |dw|;
    IntAt(s, a, dw);
    IntAt(s, e1 + 1, dh);
    ScanDimsOf(s, a, w, e1, h, e1 + 1 + |dh|);
  }

  lemma ScanDimsOf(s: string, a: nat, w: int, e1: nat, h: int, e2: nat)
    requires a <= |s| && e1 < |s| && e2 < |s|
    requires ScanInt(s, a) == Some((w, e1))
    requires ScanInt(s, e1 + 1) == Some((h, e2))
    ensures ScanDims(s, a) == Some((w, h, e2 + 1))
  {
  }

  /** The scan of the scale the exporter writes. */
  lemma AfterDims(s: string, typeChar: char, w: int, h: int, c: nat)
    requires ScaleAt(s, c)
    ensures ParseAfterDims(s, typeChar, w, h, c) == Some(Header(typeChar, w, h, -1.0, c + 10))
  {
    TextAtIff(s, c, MinusOne);
    ScanMinusOne(s, c);
    ScanScaleOf(s, c, -1.0, c + 9);
  }

  lemma ScanScaleOf(s: string, c: nat, x: real, e: nat)
    requires c <= |s| && e < |s|
    requires ScanReal(s, c) == Some((x, e))
    ensures ScanScale(s, c) == Some((x, e + 1))
  {
  }

  /** The channel count the importer takes from the type character: one
      for 'f', three for 'F'; None where it throws `unsupportedFormat`. */
  function ChannelsOf(typeChar: char): (r: Option<nat>)
    ensures r.Some? <==> typeChar == 'f' || typeChar == 'F'
  {
    if typeChar == 'f' then Some(1)
    else if typeChar == 'F' then Some(3)
    else None
  }

  /** A float as the file stores it: the four bytes of its bit pattern,
      least significant first. */
  function FloatBytes(bits: real -> nat, x: real): (r: seq<Byte>)
    ensures |r| == 4
    ensures Endian.DecodeLE(r) == WrapUnsigned(32, bits(x))
  {
    Endian.DecodeEncodeLE(4, WrapUnsigned(32, bits(x)));
    Endian.EncodeLE(4, WrapUnsigned(32, bits(x)))
  }

  /** `FloatBytes` as the exporter applies it to every sample. */
  function FloatEncoder(bits: real -> nat): (f: real -> seq<Byte>)
    ensures forall x :: f(x) == FloatBytes(bits, x)
  {
    x => FloatBytes(bits, x)
  }

  /** The float four file bytes hold, most significant byte first when
      the data is big-endian and last otherwise. */
  function FloatOf(value: nat -> real, big: bool, bs: seq<Byte>): real
  {
    value(if big then Endian.DecodeLE(Endian.Reverse(bs)) else Endian.DecodeLE(bs))
  }

  /** x survives being stored as a float: its bit pattern reads as x. */
  predicate Representable(bits: real -> nat, value: nat -> real, x: real)
  {
    value(WrapUnsigned(32, bits(x))) == x
  }

  /** A representable float written little-endian is read back as
      written. */
  lemma FloatRoundTrip(bits: real -> nat, value: nat -> real, x: real)
    requires Representable(bits, value, x)
    ensures FloatOf(value, false, FloatBytes(bits, x)) == x
  {
    Endian.DecodeEncodeLE(4, WrapUnsigned(32, bits(x)));
  }

  /** The bytes of a float are what `endian::little` leaves in memory on
      any host, so files do not depend on the machine that wrote them. */
  lemma FloatBytesOnAnyHost(host: Endian.Order, bits: real -> nat, x: real)
    ensures FloatBytes(bits, x) == Endian.ToLittle(host, Endian.HostBytes(host, 4, WrapUnsigned(32, bits(x))))
  {
    Endian.FileBytesHostIndependent(host, 4, WrapUnsigned(32, bits(x)));
  }

  /** On any host, `endian::big` (`endian::little`) turns the bytes read
      into the float FloatOf reads from them. */
  lemma FloatOfOnAnyHost(host: Endian.Order, value: nat -> real, big: bool, bs: seq<Byte>)
    ensures FloatOf(value, big, bs) ==
            value(Endian.HostValue(host, if big then Endian.ToBig(host, bs) else Endian.ToLittle(host, bs)))
  {
    Endian.ReadFileBytes(host, bs);
  }

  /** The real samples of a converted flat array, or None when some
      conversion is undefined. */
  function DefinedReals(ws: seq<Option<Sample>>): (r: Option<seq<real>>)
    ensures r.Some? <==> forall i :: 0 <= i < |ws| ==> ws[i].Some? && ws[i].value.RealSample?
    ensures r.Some? ==> |r.value| == |ws| && forall i :: 0 <= i < |ws| ==> r.value[i] == ws[i].value.x
  {
    if forall i :: 0 <= i < |ws| ==> ws[i].Some? && ws[i].value.RealSample? then
      Some(seq(|ws|, i requires 0 <= i < |ws| => ws[i].value.x))
    else None
  }

  /** The header as bytes: every character of it is a single byte. */
  function HeaderBytes(w: nat, h: nat): (r: seq<Byte>)
    ensures Text(r) == HeaderText(w, h)
  {
    var s := HeaderText(w, h);
    assert IsAscii(s) by {
      var dw, dh := Decimal(w), Decimal(h);
      assert forall i :: 0 <= i < |dw| ==> dw[i] as int < 256;
      assert forall i :: 0 <= i < |dh| ==> dh[i] as int < 256;
    }
    Ascii(s)
  }

  /** `_export(filename, buf, pad)`: the file's bytes. An empty buffer
      throws `buffer2dIllegalSize`; otherwise every pixel is flattened to
      three channels, whatever the buffer's channel count, converted to
      float and stored little-endian after a colour-map header. None when
      a conversion is undefined. */
  function Export(buf: Buffer2D.Buffer<Element<Sample>>, pixelType: SampleType, pad: Sample, bits: real -> nat): (r: Result<Option<seq<Byte>>>)
    requires Buffer2D.Valid(buf)
    ensures r.Fail? <==> buf.width == 0 || buf.height == 0
    ensures r.Fail? ==> r.error == IllegalSize
    ensures r.Ok? && r.value.Some? ==>
              var header := HeaderText(buf.width, buf.height);
              |header| <= |r.value.value| && Text(r.value.value[..|header|]) == header &&
              |r.value.value| == |header| + |buf.data| * 3 * 4
  {
    if buf.width == 0 || buf.height == 0 then Fail(IllegalSize)
    else
      var flat := Marshal.PixelToFlat(buf.data, 3, pad, Converter(pixelType, F32));
      match DefinedReals(flat)
      case None => Ok(None)
      case Some(xs) =>
        var header := HeaderBytes(buf.width, buf.height);
        var data := Buffer2D.RawBytes(xs, FloatEncoder(bits));
        Buffer2D.RawBytesLength(xs, FloatEncoder(bits), 4);
        assert (header + data)[..|header|] == header;
        Ok(Some(header + data))
  }

  /** The floats of the data area: count words of four bytes each. */
  function Words(data: seq<Byte>, count: nat, big: bool, value: nat -> real): (r: seq<Sample>)
    requires count * 4 <= |data|
    ensures |r| == count
    ensures forall i :: 0 <= i < count ==>
              i * 4 + 4 <= |data| && r[i] == RealSample(FloatOf(value, big, data[i * 4 .. i * 4 + 4]))
  {
    Buffer2D.Reinterpret(data, count, 4, (bs: seq<Byte>) => RealSample(FloatOf(value, big, bs)))
  }

  /** How many of count floats a data area of len bytes supplies: `fread`
      stops at the last whole word. */
  function Loaded(len: nat, count: nat): (r: nat)
    ensures r <= count && r * 4 <= len
    ensures r == count || len < (r + 1) * 4
  {
    Min(len / 4, count)
  }

  /** The part of `_import` after the header: a float array of
      (w * n) * h values, the width product computed in `unsigned int`,
      filled from the data area as far as it reaches; then `result`
      resized to w by h and unflattened from the array three values per
      pixel. None when an element reads a float the file did not supply
      or one past the end of the array. */
  function ReadPixels(data: seq<Byte>, w: nat, h: nat, n: nat, big: bool,
                      result: Buffer2D.Buffer<Element<Option<Sample>>>, blank: Element<Option<Sample>>,
                      pixelType: SampleType, pad: Option<Sample>, value: nat -> real): (r: Option<Buffer2D.Buffer<Element<Option<Sample>>>>)
    ensures r.Some? ==> r.value.width == Buffer2D.Resize(result, w, h, blank).width &&
                        r.value.height == Buffer2D.Resize(result, w, h, blank).height &&
                        Buffer2D.Valid(r.value)
  {
    var count := WrapUnsigned(32, w * n) * h;
    var loaded := Loaded(|data|, count);
    var words := Words(data, loaded, big, value);
    var dst := Buffer2D.Resize(result, w, h, blank);
    if !Marshal.ReadsFit(words, 0, 3, dst.data) then None
    else Some(dst.(data := Marshal.FlatToPixel(words, 0, 3, dst.data, pad, Converter(F32, pixelType))))
  }

  /** `_import(filename, result, pad)`: the header is scanned; a failed
      scan throws, and so does a type other than 'f' or 'F'. A width or
      height `%d` cannot hold, or a negative one, leaves the outcome
      unspecified; otherwise the pixels are read into `result`, the data
      big-endian when the scale is positive. */
  function Import(file: seq<Byte>, result: Buffer2D.Buffer<Element<Option<Sample>>>, blank: Element<Option<Sample>>,
                  pixelType: SampleType, pad: Option<Sample>, value: nat -> real): (r: Result<Option<Buffer2D.Buffer<Element<Option<Sample>>>>>)
    ensures ParseHeader(Text(file)).None? ==> r == Fail(UnsupportedFormat)
    ensures ParseHeader(Text(file)).Some? ==>
              var hd := ParseHeader(Text(file)).value;
              (ChannelsOf(hd.typeChar).None? <==> r.Fail?) &&
              (r.Fail? ==> r.error == UnsupportedFormat) &&
              (!(0 <= hd.width < IntLimit && 0 <= hd.height < IntLimit) && r.Ok? ==> r.value.None?)
  {
    match ParseHeader(Text(file))
    case None => Fail(UnsupportedFormat)
    case Some(hd) =>
      match ChannelsOf(hd.typeChar)
      case None => Fail(UnsupportedFormat)
      case Some(n) =>
        if 0 <= hd.width < IntLimit && 0 <= hd.height < IntLimit then
          Ok(ReadPixels(file[hd.dataStart..], hd.width, hd.height, n, hd.scale > 0.0, result, blank, pixelType, pad, value))
        else Ok(None)
  }

  /** Every channel of the three-channel pixels is a float whose bit
      pattern reads back as itself. */
  predicate StoredExactly(ps: seq<Element<Sample>>, bits: real -> nat, value: nat -> real)
    requires Marshal.Uniform(ps, 3)
  {
    forall j, c :: 0 <= j < |ps| && 0 <= c < 3 ==>
      Channels(ps[j])[c].RealSample? && Representable(bits, value, Channels(ps[j])[c].x)
  }

  /** With three float channels per pixel, flattening to float converts
      nothing, so every flat value is defined. */
  lemma FlatDefined(ps: seq<Element<Sample>>, pad: Sample)
    requires Marshal.Uniform(ps, 3)
    requires forall j, c :: 0 <= j < |ps| && 0 <= c < 3 ==> Channels(ps[j])[c].RealSample?
    ensures DefinedReals(Marshal.PixelToFlat(ps, 3, pad, Converter(F32, F32))).Some?
  {
    var flat := Marshal.PixelToFlat(ps, 3, pad, Converter(F32, F32));
    forall i | 0 <= i < |flat|
      ensures flat[i].Some? && flat[i].value.RealSample?
    {
      Codec.FlatSameTypeAt(ps, 3, pad, F32, i);
    }
  }

  /** Exporting three-channel float pixels writes the header and then
      every channel value as it is. */
  lemma ExportFloats(buf: Buffer2D.Buffer<Element<Sample>>, pad: Sample, bits: real -> nat)
    requires Buffer2D.Valid(buf) && |buf.data| > 0 && Marshal.Uniform(buf.data, 3)
    requires forall j, c :: 0 <= j < |buf.data| && 0 <= c < 3 ==> Channels(buf.data[j])[c].RealSample?
    ensures buf.width > 0 && buf.height > 0
    ensures var flat := Marshal.PixelToFlat(buf.data, 3, pad, Converter(F32, F32));
            DefinedReals(flat).Some? &&
            Export(buf, F32, pad, bits) ==
              Ok(Some(HeaderBytes(buf.width, buf.height) + Buffer2D.RawBytes(DefinedReals(flat).value, FloatEncoder(bits))))
  {
    Codec.PositiveDims(buf);
    FlatDefined(buf.data, pad);
  }

  /** Float i of the bytes written from xs is read from the bytes of
      xs[i]. */
  lemma SampleAt(xs: seq<real>, bits: real -> nat, value: nat -> real, i: nat)
    requires i < |xs|
    ensures |Buffer2D.RawBytes(xs, FloatEncoder(bits))| == |xs| * 4
    ensures Words(Buffer2D.RawBytes(xs, FloatEncoder(bits)), |xs|, false, value)[i] ==
            RealSample(FloatOf(value, false, FloatBytes(bits, xs[i])))
  {
    Buffer2D.RawBytesSlice(xs, FloatEncoder(bits), 4, i);
  }

  /** Float i of the data area the exporter wrote reads back as flat
      value i. */
  lemma WordReadBack(ps: seq<Element<Sample>>, pad: Sample, bits: real -> nat, value: nat -> real, i: nat)
    requires Marshal.Uniform(ps, 3) && StoredExactly(ps, bits, value) && i < |ps| * 3
    ensures var flat := Marshal.PixelToFlat(ps, 3, pad, Converter(F32, F32));
            DefinedReals(flat).Some? &&
            var raw := Buffer2D.RawBytes(DefinedReals(flat).value, FloatEncoder(bits));
            |raw| == |ps| * 3 * 4 &&
            Words(raw, |ps| * 3, false, value)[i] == flat[i].value
  {
    var flat := Marshal.PixelToFlat(ps, 3, pad, Converter(F32, F32));
    FlatDefined(ps, pad);
    var xs := DefinedReals(flat).value;
    Codec.FlatSameTypeAt(ps, 3, pad, F32, i);
    SampleAt(xs, bits, value, i);
    FloatRoundTrip(bits, value, xs[i]);
  }

  /** The floats of the data area the exporter wrote are the flat array
      it wrote them from. */
  lemma WordsBack(ps: seq<Element<Sample>>, pad: Sample, bits: real -> nat, value: nat -> real)
    requires Marshal.Uniform(ps, 3) && StoredExactly(ps, bits, value)
    ensures var flat := Marshal.PixelToFlat(ps, 3, pad, Converter(F32, F32));
            DefinedReals(flat).Some? &&
            var raw := Buffer2D.RawBytes(DefinedReals(flat).value, FloatEncoder(bits));
            |raw| == |ps| * 3 * 4 &&
            var words := Words(raw, |ps| * 3, false, value);
            |words| == |flat| && forall i :: 0 <= i < |flat| ==> flat[i].Some? && words[i] == flat[i].value
  {
    var flat := Marshal.PixelToFlat(ps, 3, pad, Converter(F32, F32));
    FlatDefined(ps, pad);
    var raw := Buffer2D.RawBytes(DefinedReals(flat).value, FloatEncoder(bits));
    Buffer2D.RawBytesLength(DefinedReals(flat).value, FloatEncoder(bits), 4);
    var words := Words(raw, |ps| * 3, false, value);
    forall i | 0 <= i < |flat|
      ensures flat[i].Some? && words[i] == flat[i].value
    {
      WordReadBack(ps, pad, bits, value, i);
    }
  }

  /** Read into elements of three channels, the floats the exporter wrote
      give every channel back. */
  lemma ChannelsBack(ps: seq<Element<Sample>>, pad: Sample, bits: real -> nat, value: nat -> real,
                     dst: seq<Element<Option<Sample>>>, pad2: Option<Sample>)
    requires Marshal.Uniform(ps, 3) && StoredExactly(ps, bits, value)
    requires Marshal.Uniform(dst, 3) && |dst| == |ps|
    ensures var flat := Marshal.PixelToFlat(ps, 3, pad, Converter(F32, F32));
            DefinedReals(flat).Some? &&
            var raw := Buffer2D.RawBytes(DefinedReals(flat).value, FloatEncoder(bits));
            |raw| == |ps| * 3 * 4 &&
            var words := Words(raw, |ps| * 3, false, value);
            Marshal.ReadsFit(words, 0, 3, dst) &&
            var back := Marshal.FlatToPixel(words, 0, 3, dst, pad2, Converter(F32, F32));
            Marshal.Uniform(back, 3) &&
            forall j, c :: 0 <= j < |ps| && 0 <= c < 3 ==> Channels(back[j])[c] == Some(Channels(ps[j])[c])
  {
    var flat := Marshal.PixelToFlat(ps, 3, pad, Converter(F32, F32));
    WordsBack(ps, pad, bits, value);
    var raw := Buffer2D.RawBytes(DefinedReals(flat).value, FloatEncoder(bits));
    ReadBack(ps, pad, Words(raw, |ps| * 3, false, value), dst, pad2);
  }

  /** Floats that repeat the flat array of three-channel float pixels,
      read into elements of the same shape, give the pixels' channels. */
  lemma ReadBack(ps: seq<Element<Sample>>, pad: Sample, words: seq<Sample>,
                 dst: seq<Element<Option<Sample>>>, pad2: Option<Sample>)
    requires Marshal.Uniform(ps, 3) && Marshal.Uniform(dst, 3) && |dst| == |ps|
    requires forall j, c :: 0 <= j < |ps| && 0 <= c < 3 ==> Channels(ps[j])[c].RealSample?
    requires var flat := Marshal.PixelToFlat(ps, 3, pad, Converter(F32, F32));
             |words| == |flat| && forall i :: 0 <= i < |flat| ==> flat[i].Some? && words[i] == flat[i].value
    ensures Marshal.ReadsFit(words, 0, 3, dst)
    ensures var back := Marshal.FlatToPixel(words, 0, 3, dst, pad2, Converter(F32, F32));
            Marshal.Uniform(back, 3) &&
            forall j, c :: 0 <= j < |ps| && 0 <= c < 3 ==> Channels(back[j])[c] == Some(Channels(ps[j])[c])
  {
    var conv := Converter(F32, F32);
    Marshal.UniformReadsFit(words, 0, 3, dst);
    var back := Marshal.FlatToPixel(words, 0, 3, dst, pad2, conv);
    forall j, c | 0 <= j < |ps| && 0 <= c < 3
      ensures Size(back[j]) == 3 && Channels(back[j])[c] == Some(Channels(ps[j])[c])
    {
      ConvertSameType(F32, Channels(ps[j])[c]);
      Marshal.ReadBackAt(ps, 3, pad, conv, words, dst, pad2, j, c);
    }
  }

  /** The importer finds the exporter's header at the start of the file
      and the float data right after it. */
  lemma FileHeader(hb: seq<Byte>, raw: seq<Byte>, w: nat, h: nat)
    requires hb == HeaderBytes(w, h)
    ensures ParseHeader(Text(hb + raw)) == Some(Header('F', w, h, -1.0, |hb|))
    ensures (hb + raw)[|hb|..] == raw
  {
    TextAppend(hb, raw);
    ParseHeaderText(w, h, Text(raw));
  }

  /** `ReadPixels` for three channels when the width product does not
      wrap, the little-endian data area holds every float and the resized
      buffer reads no further. */
  lemma ReadPixelsOk(raw: seq<Byte>, w: nat, h: nat, count: nat,
                     result: Buffer2D.Buffer<Element<Option<Sample>>>, blank: Element<Option<Sample>>,
                     pad2: Option<Sample>, value: nat -> real)
    requires w * 3 < Pow2(32) && count == w * 3 * h && |raw| == count * 4
    requires Marshal.ReadsFit(Words(raw, count, false, value), 0, 3, Buffer2D.Resize(result, w, h, blank).data)
    ensures var dst := Buffer2D.Resize(result, w, h, blank);
            ReadPixels(raw, w, h, 3, false, result, blank, F32, pad2, value) ==
              Some(dst.(data := Marshal.FlatToPixel(Words(raw, count, false, value), 0, 3, dst.data, pad2, Converter(F32, F32))))
  {
    assert WrapUnsigned(32, w * 3) == w * 3;
    MulDivCancel(count, 4);
    assert Loaded(|raw|, count) == count;
  }

  lemma TripleProduct(a: nat, w: nat, h: nat)
    requires a == w * h
    ensures a * 3 == w * 3 * h
  {
  }

  /** The importer's reading of the data area the exporter wrote. */
  lemma ReadPixelsRoundTrip(buf: Buffer2D.Buffer<Element<Sample>>, pad: Sample, bits: real -> nat, value: nat -> real,
                            result: Buffer2D.Buffer<Element<Option<Sample>>>, blank: Element<Option<Sample>>,
                            pad2: Option<Sample>)
    requires Buffer2D.Valid(buf) && |buf.data| > 0 && buf.width * 3 < Pow2(32)
    requires Marshal.Uniform(buf.data, 3) && StoredExactly(buf.data, bits, value)
    requires Size(blank) == 3
    ensures var flat := Marshal.PixelToFlat(buf.data, 3, pad, Converter(F32, F32));
            DefinedReals(flat).Some? &&
            var raw := Buffer2D.RawBytes(DefinedReals(flat).value, FloatEncoder(bits));
            var r := ReadPixels(raw, buf.width, buf.height, 3, false, result, blank, F32, pad2, value);
            r.Some? && r.value.width == buf.width && r.value.height == buf.height &&
            |r.value.data| == |buf.data| && Marshal.Uniform(r.value.data, 3) &&
            forall j, c :: 0 <= j < |buf.data| && 0 <= c < 3 ==>
              Channels(r.value.data[j])[c] == Some(Channels(buf.data[j])[c])
  {
    var w, h := buf.width, buf.height;
    var flat := Marshal.PixelToFlat(buf.data, 3, pad, Converter(F32, F32));
    FlatDefined(buf.data, pad);
    var raw := Buffer2D.RawBytes(DefinedReals(flat).value, FloatEncoder(bits));
    Codec.PositiveDims(buf);
    Buffer2D.EmptyIffNoElements(buf);
    var count := |buf.data| * 3;
    TripleProduct(|buf.data|, w, h);
    var dst := Buffer2D.Resize(result, w, h, blank);
    Codec.ResizeShape(result, w, h, blank, 3);
    ChannelsBack(buf.data, pad, bits, value, dst.data, pad2);
    ReadPixelsOk(raw, w, h, count, result, blank, pad2, value);
  }

  /** A buffer of three-channel float pixels that survive being stored,
      narrow enough that the width times three fits an `unsigned int`,
      exported and imported again as float comes back with its
      dimensions and every channel value. */
  lemma ExportImportRoundTrip(buf: Buffer2D.Buffer<Element<Sample>>, pad: Sample, bits: real -> nat, value: nat -> real,
                              result: Buffer2D.Buffer<Element<Option<Sample>>>, blank: Element<Option<Sample>>,
                              pad2: Option<Sample>)
    requires Buffer2D.Valid(buf) && |buf.data| > 0 && buf.width * 3 < Pow2(32) && buf.height < IntLimit
    requires Marshal.Uniform(buf.data, 3) && StoredExactly(buf.data, bits, value)
    requires Size(blank) == 3
    ensures var file := Export(buf, F32, pad, bits);
            file.Ok? && file.value.Some? &&
            var back := Import(file.value.value, result, blank, F32, pad2, value);
            back.Ok? && back.value.Some? &&
            back.value.value.width == buf.width && back.value.value.height == buf.height &&
            |back.value.value.data| == |buf.data| && Marshal.Uniform(back.value.value.data, 3) &&
            forall j, c :: 0 <= j < |buf.data| && 0 <= c < 3 ==>
              Channels(back.value.value.data[j])[c] == Some(Channels(buf.data[j])[c])
  {
    var flat := Marshal.PixelToFlat(buf.data, 3, pad, Converter(F32, F32));
    ExportFloats(buf, pad, bits);
    var hb := HeaderBytes(buf.width, buf.height);
    var raw := Buffer2D.RawBytes(DefinedReals(flat).value, FloatEncoder(bits));
    var file := hb + raw;
    assert Export(buf, F32, pad, bits) == Ok(Some(file));
    FileHeader(hb, raw, buf.width, buf.height);
    NarrowWidth(buf.width);
    ImportReads(file, 'F', buf.width, buf.height, -1.0, |hb|, 3, result, blank, F32, pad2, value);
    ReadPixelsRoundTrip(buf, pad, bits, value, result, blank, pad2);
  }

  /** A width whose product with three fits an `unsigned int` is below
      2^31. */
  lemma NarrowWidth(w: nat)
    requires w * 3 < Pow2(32)
    ensures w < IntLimit
  {
    IntLimitIsPow2();
  }

  /** A width below 2^31 times one channel does not wrap. */
  lemma GreyWidth(w: nat)
    requires w < IntLimit
    ensures WrapUnsigned(32, w * 1) == w
  {
    IntLimitIsPow2();
  }

  /** Once the header is scanned, of type 'f' or 'F', with dimensions
      below 2^31, the import is the pixel read of the bytes after it. */
  lemma ImportReads(file: seq<Byte>, typeChar: char, w: nat, h: nat, scale: real, d: nat, n: nat,
                    result: Buffer2D.Buffer<Element<Option<Sample>>>, blank: Element<Option<Sample>>,
                    pixelType: SampleType, pad: Option<Sample>, value: nat -> real)
    requires ParseHeader(Text(file)) == Some(Header(typeChar, w, h, scale, d))
    requires ChannelsOf(typeChar) == Some(n) && w < IntLimit && h < IntLimit
    ensures d <= |file|
    ensures Import(file, result, blank, pixelType, pad, value) ==
            Ok(ReadPixels(file[d..], w, h, n, scale > 0.0, result, blank, pixelType, pad, value))
  {
  }

  /** Whenever the float array is shorter than three floats for each of
      the w by h pixels of a three-channel result, the last pixels read
      past it and the outcome is unspecified. */
  lemma ReadPixelsShort(data: seq<Byte>, w: nat, h: nat, n: nat, big: bool,
                        result: Buffer2D.Buffer<Element<Option<Sample>>>, blank: Element<Option<Sample>>,
                        pixelType: SampleType, pad: Option<Sample>, value: nat -> real)
    requires w > 0 && h > 0 && Size(blank) == 3
    requires WrapUnsigned(32, w * n) * h < w * h * 3
    ensures ReadPixels(data, w, h, n, big, result, blank, pixelType, pad, value).None?
  {
    var count := WrapUnsigned(32, w * n) * h;
    var words := Words(data, Loaded(|data|, count), big, value);
    var dst := Buffer2D.Resize(result, w, h, blank);
    Codec.ResizeShape(result, w, h, blank, 3);
    Marshal.UniformReadsFitIff(words, 0, 3, 3, dst.data);
  }

  /** A grey ('f') file imported into a colour result: the array holds
      one float per pixel but three are read for each, so the import
      always reads past it. */
  lemma GreyIntoColourOverreads(file: seq<Byte>, w: nat, h: nat, scale: real, d: nat,
                                result: Buffer2D.Buffer<Element<Option<Sample>>>, blank: Element<Option<Sample>>,
                                pixelType: SampleType, pad: Option<Sample>, value: nat -> real)
    requires ParseHeader(Text(file)) == Some(Header('f', w, h, scale, d))
    requires 0 < w < IntLimit && 0 < h < IntLimit && Size(blank) == 3
    ensures Import(file, result, blank, pixelType, pad, value) == Ok(None)
  {
    ImportReads(file, 'f', w, h, scale, d, 1, result, blank, pixelType, pad, value);
    GreyWidth(w);
    assert w * h > 0 by {
      Buffer2D.MulMono(w, h);
    }
    ReadPixelsShort(file[d..], w, h, 1, scale > 0.0, result, blank, pixelType, pad, value);
  }

  /** With more than 2^32 / 3 columns the `unsigned int` product of the
      width and three wraps once. */
  lemma WidthWraps(w: nat)
    requires Pow2(32) <= w * 3 && w < IntLimit
    ensures WrapUnsigned(32, w * 3) == w * 3 - Pow2(32)
  {
    IntLimitIsPow2();
    ModOnce(w * 3, Pow2(32));
  }

  lemma ShortRows(x: int, m: nat, w: nat, h: nat)
    requires m > 0 && h > 0 && x == w * 3 - m
    ensures x * h < w * h * 3
  {
  }

  /** A colour ('F') file more than 2^32 / 3 pixels wide: the wrapped
      width product makes the float array 2^32 floats short in every row,
      and a colour result reads past it. */
  lemma WideColourOverreads(file: seq<Byte>, w: nat, h: nat, scale: real, d: nat,
                            result: Buffer2D.Buffer<Element<Option<Sample>>>, blank: Element<Option<Sample>>,
                            pixelType: SampleType, pad: Option<Sample>, value: nat -> real)
    requires ParseHeader(Text(file)) == Some(Header('F', w, h, scale, d))
    requires Pow2(32) <= w * 3 && w < IntLimit && 0 < h < IntLimit && Size(blank) == 3
    ensures Import(file, result, blank, pixelType, pad, value) == Ok(None)
  {
    ImportReads(file, 'F', w, h, scale, d, 3, result, blank, pixelType, pad, value);
    WidthWraps(w);
    ShortRows(WrapUnsigned(32, w * 3), Pow2(32), w, h);
    ReadPixelsShort(file[d..], w, h, 3, scale > 0.0, result, blank, pixelType, pad, value);
  }

  /** A grey ('f') file imported into a grey result: each pixel takes the
      next float of the data area, in the byte order the scale's sign
      selects, converted to the result's type. */
  lemma GreyIntoGrey(file: seq<Byte>, w: nat, h: nat, scale: real, d: nat,
                     result: Buffer2D.Buffer<Element<Option<Sample>>>, blank: Element<Option<Sample>>,
                     pixelType: SampleType, pad: Option<Sample>, value: nat -> real)
    requires ParseHeader(Text(file)) == Some(Header('f', w, h, scale, d))
    requires 0 < w < IntLimit && 0 < h < IntLimit && Size(blank) == 1
    requires d + w * h * 4 <= |file|
    ensures var r := Import(file, result, blank, pixelType, pad, value);
            r.Ok? && r.value.Some? && r.value.value.width == w && r.value.value.height == h &&
            |r.value.value.data| == w * h &&
            forall j :: 0 <= j < w * h ==>
              Size(r.value.value.data[j]) == 1 &&
              Channels(r.value.value.data[j])[0] ==
                Converter(F32, pixelType)(RealSample(FloatOf(value, scale > 0.0, file[d + j * 4 .. d + j * 4 + 4])))
  {
    var data := file[d..];
    var big := scale > 0.0;
    SuffixWords(file, d, w, h);
    ImportReads(file, 'f', w, h, scale, d, 1, result, blank, pixelType, pad, value);
    ReadPixelsGrey(data, w, h, big, result, blank, pixelType, pad, value);
  }

  /** The first w * h words of the data area starting at d are the file's
      words at d. */
  lemma SuffixWords(file: seq<Byte>, d: nat, w: nat, h: nat)
    requires d + w * h * 4 <= |file|
    ensures forall j :: 0 <= j < w * h ==>
              j * 4 + 4 <= |file| - d && file[d..][j * 4 .. j * 4 + 4] == file[d + j * 4 .. d + j * 4 + 4]
  {
    var n := w * h;
    forall j | 0 <= j < n
      ensures j * 4 + 4 <= |file| - d && file[d..][j * 4 .. j * 4 + 4] == file[d + j * 4 .. d + j * 4 + 4]
    {
      Buffer2D.WordInBounds(j, n, 4, |file| - d);
    }
  }

  /** `ReadPixels` of one channel into a grey result, with every float
      present: pixel j is float j. */
  lemma ReadPixelsGrey(data: seq<Byte>, w: nat, h: nat, big: bool,
                       result: Buffer2D.Buffer<Element<Option<Sample>>>, blank: Element<Option<Sample>>,
                       pixelType: SampleType, pad: Option<Sample>, value: nat -> real)
    requires 0 < w < IntLimit && 0 < h && Size(blank) == 1 && w * h * 4 <= |data|
    ensures var r := ReadPixels(data, w, h, 1, big, result, blank, pixelType, pad, value);
            r.Some? && r.value.width == w && r.value.height == h && |r.value.data| == w * h &&
            forall j :: 0 <= j < w * h ==>
              j * 4 + 4 <= |data| && Size(r.value.data[j]) == 1 &&
              Channels(r.value.data[j])[0] == Converter(F32, pixelType)(RealSample(FloatOf(value, big, data[j * 4 .. j * 4 + 4])))
  {
    var count := w * h;
    GreyWidth(w);
    assert Loaded(|data|, count) == count;
    var words := Words(data, count, big, value);
    var dst := Buffer2D.Resize(result, w, h, blank);
    Codec.ResizeShape(result, w, h, blank, 1);
    Marshal.UniformReadsFitIff(words, 0, 3, 1, dst.data);
    var conv := Converter(F32, pixelType);
    var back := Marshal.FlatToPixel(words, 0, 3, dst.data, pad, conv);
    assert ReadPixels(data, w, h, 1, big, result, blank, pixelType, pad, value) == Some(dst.(data := back));
    forall j | 0 <= j < count
      ensures Size(back[j]) == 1 && Channels(back[j])[0] == conv(words[j])
    {
      GreyPixel(words, dst.data, pad, conv, j);
    }
  }

  /** One-channel elements read from a float array, with three floats
      allowed per element: element j reads float j alone. */
  lemma GreyPixel(words: seq<Sample>, dst: seq<Element<Option<Sample>>>, pad: Option<Sample>,
                  conv: Sample -> Option<Sample>, j: nat)
    requires Marshal.Uniform(dst, 1) && j < |dst| <= |words|
    ensures Marshal.ReadsFit(words, 0, 3, dst)
    ensures var back := Marshal.FlatToPixel(words, 0, 3, dst, pad, conv);
            Size(back[j]) == 1 && Channels(back[j])[0] == conv(words[j])
  {
    Marshal.UniformReadsFitIff(words, 0, 3, 1, dst);
    Marshal.FlatToPixelAt(words, 0, 3, dst, pad, conv, j, 0);
    Marshal.UniformOffset(dst, 1, j);
  }
}
