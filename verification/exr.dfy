/** OpenEXR options (compression, channel type, channel names) and the
    dispatch from the channel type to the flat sample type.

    The OpenEXR library calls around it are not part of this model, and
    neither is the 16-bit `half` type itself: only its selection and size
    are modelled.
 */
module Exr {
  import opened Wrappers
  import opened Numeric
  import opened PixelConvert

  /** `compression`, numbered as OpenEXR numbers them. */
  datatype Compression = NoCompression | Rle | Zips | Zip | Piz | Pxr24 | B44 | B44a

  function CompressionCode(c: Compression): (n: nat)
    ensures n <= 7
  {
    match c
    case NoCompression => 0
    case Rle => 1
    case Zips => 2
    case Zip => 3
    case Piz => 4
    case Pxr24 => 5
    case B44 => 6
    case B44a => 7
  }

  /** `pixel`; a value outside the enumerators (a cast integer) is
      `OtherPixel`. */
  datatype Pixel = UIntPixel | HalfPixel | FloatPixel | OtherPixel(code: int)

  function PixelCode(p: Pixel): int
  {
    match p
    case UIntPixel => 0
    case HalfPixel => 1
    case FloatPixel => 2
    case OtherPixel(n) => n
  }

  /** `options`: compression, channel type and the channel names. */
  datatype Options = Options(compressionType: Compression, pixelType: Pixel, channelNames: seq<string>)

  /** The default constructor given both arguments: channels named R, G,
      B, and the compression and channel type as given. */
  function RgbOptions(compression: Compression, pixel: Pixel): (o: Options)
    ensures o.channelNames == ["R", "G", "B"]
    ensures o.compressionType == compression && o.pixelType == pixel
  {
    Options(compression, pixel, ["R", "G", "B"])
  }

  /** `options()`: the default constructor with its default arguments,
      ZIP compression and FLOAT channels. */
  function DefaultOptions(): (o: Options)
    ensures o == Options(Zip, FloatPixel, ["R", "G", "B"])
  {
    RgbOptions(Zip, FloatPixel)
  }

  /** The named constructor: the names copied in order. */
  function NamedOptions(names: seq<string>, compression: Compression, pixel: Pixel): (o: Options)
  {
    Options(compression, pixel, names)
  }

  /** `unnamedOptions()`: no names, ZIP, FLOAT. */
  function UnnamedOptions(): (o: Options)
  {
    NamedOptions([], Zip, FloatPixel)
  }

  predicate HasNamedChannels(o: Options)
  {
    |o.channelNames| != 0
  }

  function NumberOfChannels(o: Options): nat
  {
    |o.channelNames|
  }

  /** `channelName(index)`: the stored name, or "C" followed by the index
      printed with "%d". The index is an `unsigned int`, so an index of
      2^31 or more prints as a negative number. */
  function ChannelName(o: Options, index: nat): (name: string)
    requires index < Pow2(32)
    ensures index < |o.channelNames| ==> name == o.channelNames[index]
  {
    if index < |o.channelNames| then o.channelNames[index]
    else "C" + SignedDecimal(WrapSigned(32, index))
  }

  /** Unnamed channels are C followed by their index, read back exactly,
      as long as the index is below 2^31; from 2^31 on, a minus sign
      follows the C. */
  lemma UnnamedChannelName(o: Options, index: nat)
    requires |o.channelNames| <= index < Pow2(32)
    ensures |ChannelName(o, index)| >= 2 && ChannelName(o, index)[0] == 'C'
    ensures index < Pow2(31) ==> ChannelName(o, index) == "C" + Decimal(index) && ParseDecimal(ChannelName(o, index)[1..]) == index
    ensures index >= Pow2(31) ==> ChannelName(o, index)[1] == '-'
  {
    Pow2Add(1, 31);
    assert Pow2(1) == 2;
    var w := WrapSigned(32, index);
    assert ChannelName(o, index) == "C" + SignedDecimal(w);
    if index < Pow2(31) {
      assert w == index;
      assert ChannelName(o, index)[1..] == Decimal(index);
      DecimalRoundTrip(index);
    } else {
      WrapSignedHigh(32, index);
    }
  }

  /** The default options name three channels; the unnamed ones none, so
      every channel gets a generated name. */
  lemma DefaultNames(c: Compression, p: Pixel)
    ensures HasNamedChannels(RgbOptions(c, p)) && NumberOfChannels(RgbOptions(c, p)) == 3
    ensures ChannelName(RgbOptions(c, p), 1) == "G"
    ensures NamedOptions(["R", "G", "B"], c, p) == RgbOptions(c, p)
    ensures !HasNamedChannels(UnnamedOptions()) && ChannelName(UnnamedOptions(), 0) == "C0"
  {
    assert WrapSigned(32, 0) == 0;
    assert Decimal(0) == "0";
  }

  /** The flat value type a channel type selects: a sample type the
      convertor handles, or `half`. */
  datatype FlatKind = Typed(t: SampleType) | Half

  /** The selection in `detail::convertPixelToFlat`; its exception text
      carries the source's spelling. */
  function ExportFlatKind(p: Pixel): Result<FlatKind>
  {
    match p
    case UIntPixel => Ok(Typed(U32))
    case HalfPixel => Ok(Half)
    case FloatPixel => Ok(Typed(F32))
    case OtherPixel(_) => Fail(Custom("Uknown EXR pixel type."))
  }

  /** The selection in `detail::convertFlatToPixel`. */
  function ImportFlatKind(p: Pixel): Result<FlatKind>
  {
    match p
    case UIntPixel => Ok(Typed(U32))
    case HalfPixel => Ok(Half)
    case FloatPixel => Ok(Typed(F32))
    case OtherPixel(_) => Fail(Custom("Unknown EXR pixel type."))
  }

  /** `bytesPerPixel`: the size of one channel value of the type. */
  function BytesPerPixel(p: Pixel): (r: Result<nat>)
    ensures r.Ok? ==> r.value == 2 || r.value == 4
  {
    match p
    case UIntPixel => Ok(4)
    case HalfPixel => Ok(2)
    case FloatPixel => Ok(4)
    case OtherPixel(_) => Fail(Custom("Unknown pixel type in EXR options."))
  }

  /** The three selections agree: they accept the same channel types, both
      directions select the same flat type, and the byte count is that
      type's size (two bytes for `half`). */
  lemma SelectionsAgree(p: Pixel)
    ensures BytesPerPixel(p).Ok? <==> ExportFlatKind(p).Ok?
    ensures ExportFlatKind(p).Ok? <==> ImportFlatKind(p).Ok?
    ensures ExportFlatKind(p).Ok? ==> ExportFlatKind(p) == ImportFlatKind(p)
    ensures ExportFlatKind(p).Ok? ==>
              BytesPerPixel(p).value == match ExportFlatKind(p).value
                                        case Typed(t) => t.size
                                        case Half => 2
  {
  }
}
