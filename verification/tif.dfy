/** TIFF options and the dispatch from (sample format, bits per sample)
    to the flat sample type the kernel converts to or from.

    The libtiff calls around it are not part of this model.
 */
module Tif {
  import opened Wrappers
  import opened ChannelView
  import opened PixelConvert
  import Marshal

  /** `sample_format`; a value outside the enumerators (a cast integer) is
      `OtherFormat`. */
  datatype SampleFormat = UInt | Int | Float | OtherFormat(code: int)

  /** The TIFF SampleFormat tag values. */
  function FormatCode(f: SampleFormat): int
  {
    match f
    case UInt => 1
    case Int => 2
    case Float => 3
    case OtherFormat(c) => c
  }

  /** `compression`: no compression or LZW. */
  datatype Compression = NoCompression | Lzw | OtherCompression(code: int)

  /** The TIFF Compression tag values. */
  function CompressionCode(c: Compression): int
  {
    match c
    case NoCompression => 1
    case Lzw => 5
    case OtherCompression(n) => n
  }

  /** `options`: sample format, bits per sample, compression. */
  datatype Options = Options(sampleFormat: SampleFormat, bitsPerSample: nat, compressionType: Compression)

  /** The bit depths `checkOptions` accepts for a format; an unknown
      format is not checked at all. */
  predicate AcceptedBits(format: SampleFormat, bits: nat)
  {
    match format
    case UInt => bits == 8 || bits == 16 || bits == 32
    case Int => bits == 8 || bits == 16 || bits == 32
    case Float => bits == 32 || bits == 64
    case OtherFormat(_) => true
  }

  /** The checking constructor `options(format, bits, compression)`:
      `unsupportedFormat` for a rejected depth. The copy constructor
      copies without checking, which is the identity on values. */
  function MakeOptions(format: SampleFormat, bits: nat, compression: Compression): (r: Result<Options>)
    ensures r.Ok? ==> r.value.sampleFormat == format && r.value.bitsPerSample == bits && r.value.compressionType == compression
    ensures r.Fail? ==> r.error == UnsupportedFormat
  {
    if (format == UInt || format == Int) && bits != 8 && bits != 16 && bits != 32 then Fail(UnsupportedFormat)
    else if format == Float && bits != 32 && bits != 64 then Fail(UnsupportedFormat)
    else Ok(Options(format, bits, compression))
  }

  /** The default arguments: 32-bit float, LZW. */
  function DefaultOptions(): (r: Result<Options>)
  {
    MakeOptions(Float, 32, Lzw)
  }

  /** The flat sample type `detail::convertPixelToFlat` and
      `detail::convertFlatToPixel` select, or the exception they throw. */
  function FlatType(format: SampleFormat, bits: nat): (r: Result<SampleType>)
    ensures r.Ok? <==> !format.OtherFormat? && AcceptedBits(format, bits)
    ensures r.Ok? ==> ValidType(r.value) && 8 * r.value.size == bits
    ensures r.Ok? ==> (format == Float <==> r.value.Floating?)
    ensures r.Ok? ==> (format == Int <==> r.value.Integral? && r.value.signed)
    ensures r.Fail? ==> r.error.Custom?
  {
    match format
    case UInt =>
      if bits == 8 then Ok(U8) else if bits == 16 then Ok(U16) else if bits == 32 then Ok(U32)
      else Fail(Custom("Unknown UINT pixel depth in TIF."))
    case Int =>
      if bits == 8 then Ok(Integral(true, 1)) else if bits == 16 then Ok(Integral(true, 2))
      else if bits == 32 then Ok(Integral(true, 4))
      else Fail(Custom("Unknown INT pixel depth in TIF."))
    case Float =>
      if bits == 32 then Ok(F32) else if bits == 64 then Ok(Floating(8))
      else Fail(Custom("Unknown FLOAT pixel depth in TIF."))
    case OtherFormat(_) => Fail(Custom("Unknown pixel format in TIF."))
  }

  /** The constructor rejects exactly the depths the format does not list. */
  lemma MakeOptionsAccepts(format: SampleFormat, bits: nat, compression: Compression)
    ensures MakeOptions(format, bits, compression).Ok? <==> AcceptedBits(format, bits)
  {
  }

  /** The default options are valid: 32-bit float with LZW. */
  lemma DefaultOptionsValid()
    ensures DefaultOptions() == Ok(Options(Float, 32, Lzw))
    ensures FormatCode(Float) == 3 && CompressionCode(Lzw) == 5
  {
  }

  /** Options of a known format that pass the constructor always dispatch,
      to a type of the requested format; options of an unknown format pass
      the constructor with any depth and then always fail to dispatch. */
  lemma CheckedOptionsDispatch(o: SampleFormat, bits: nat, c: Compression)
    ensures !o.OtherFormat? ==> (MakeOptions(o, bits, c).Ok? <==> FlatType(o, bits).Ok?)
    ensures FlatType(o, bits).Ok? ==>
              (o == Float <==> FlatType(o, bits).value.Floating?) &&
              (o == Int <==> FlatType(o, bits).value.Integral? && FlatType(o, bits).value.signed)
    ensures o.OtherFormat? ==> MakeOptions(o, bits, c).Ok? && FlatType(o, bits) == Fail(Custom("Unknown pixel format in TIF."))
  {
  }

  /** `detail::convertPixelToFlat`: dispatch, then flatten `channels` values
      per pixel converted from the pixels' type. */
  function Export(ps: seq<Element<Sample>>, pixelType: SampleType, channels: nat, format: SampleFormat, bits: nat, pad: Sample): (r: Result<seq<Option<Sample>>>)
    ensures r.Ok? <==> FlatType(format, bits).Ok?
    ensures r.Ok? ==> |r.value| == |ps| * channels
  {
    var t :- FlatType(format, bits);
    Ok(Marshal.PixelToFlat(ps, channels, pad, Converter(pixelType, t)))
  }

  /** `detail::convertFlatToPixel`: dispatch, then read `channels` values
      per pixel into the destination elements. */
  function Import(src: seq<Sample>, channels: nat, dst: seq<Element<Option<Sample>>>, pixelType: SampleType, format: SampleFormat, bits: nat, pad: Option<Sample>): (r: Result<seq<Element<Option<Sample>>>>)
    requires FlatType(format, bits).Ok? ==> Marshal.ReadsFit(src, 0, channels, dst)
    ensures r.Ok? <==> FlatType(format, bits).Ok?
    ensures r.Ok? ==> |r.value| == |dst|
  {
    var t :- FlatType(format, bits);
    Ok(Marshal.FlatToPixel(src, 0, channels, dst, pad, Converter(t, pixelType)))
  }

  /** Exported values are of the flat type the options name. */
  lemma ExportedValuesFit(ps: seq<Element<Sample>>, pixelType: SampleType, channels: nat, format: SampleFormat, bits: nat, pad: Sample)
    requires FlatType(format, bits).Ok?
    ensures Export(ps, pixelType, channels, format, bits, pad).Ok?
    ensures var flat := Export(ps, pixelType, channels, format, bits, pad).value;
            forall k :: 0 <= k < |flat| && flat[k].Some? ==> Fits(FlatType(format, bits).value, flat[k].value)
  {
    var t := FlatType(format, bits).value;
    Marshal.PixelToFlatAll(ps, channels, pad, Converter(pixelType, t), (v: Option<Sample>) => v.Some? ==> Fits(t, v.value));
  }

}
