# Photography_Lighting image library: a Dafny model

This project models the header-only C++ image library under
`Photography_Lighting/include`:

- the pixel container `buffer2d<T>`: a row-major width by height array whose
  elementwise operators check dimensions, with `resize`, `swap`, assignment
  and `remap`;
- the marshalling kernel that moves pixels between a `buffer2d` and a flat
  sample array: the `pixelTypeConvertor` rules, `convertPixelToFlat`,
  `convertFlatToPixel`, and the channel views they walk (`iteratorWrapper`,
  `offset_iterator`);
- the codec-side rules:
  - byte-order reversal (`endian::little`, `endian::big`, `swapOrder`);
  - the TIFF and OpenEXR options and sample-type dispatch tables;
  - the binary Netpbm (`P5`/`P6`) and Portable Float Map (`Pf`/`PF`)
    exporters and importers, with their headers written and scanned as text;
  - the file-extension dispatch of `importImage`/`exportImage`;
- the element value types `mat<T>` (column-major matrix), `color<T>` and
  `vec3d<T>`, over integers.

Everything is a value: a buffer or matrix is a record of its dimensions and a
`seq` of elements, and an operation that mutates in C++ returns the new value.
A thrown exception is `Fail(error)` of the `Result` type in `Wrappers`.
Behaviour the C++ leaves undefined is `Ok(None)` where an operation can reach
it. Division by zero and out-of-range access are preconditions instead.

The host's byte order is a parameter (`host: Endian.Order`) of the byte-order
functions and of the PPM exporter and importer. Float bit patterns are a
pair of parameter functions (`bits`, `value`), with a round-trip condition
where one is needed. A file is its sequence of bytes: the exporters produce
it, and the importers consume it.

Several behaviours of the code look unintended. They are modelled as written,
each with a lemma that exhibits it:

- integer-to-integer conversion shifts by the difference in bytes, not bits
  (`PixelConvert.ByteShiftNotRescale`);
- `convertFlatToPixel` advances its source cursor once per destination
  channel (`Marshal.OneIntoThreeOverreads`, `Marshal.FourIntoThreeMisaligns`);
- the PFM importer always reads three floats per pixel
  (`Pfm.GreyIntoColourOverreads`);
- the `unsigned int` width product of the PFM importer wraps
  (`Pfm.WideColourOverreads`);
- the four-letter extensions in `importImage` never match
  (`ImageIO.FourLetterExtensionsUnsupported`);
- `_compare` is negative for equal-sized matrices with as many larger as
  smaller elements (`Mat.CompareBothLess`);
- `color` ordering only compares lengths (`Color.DistinctButIncomparable`);
- `remap` can leave a width of 0 beside a positive height
  (`Buffer2D.RemapCanBreakNormalForm`);
- `channelName` prints a large unsigned index with `%d`
  (`Exr.UnnamedChannelName`);
- on a little-endian host the PPM codec's `endian::big` swaps only the
  first w*h*n / k samples of k bytes, because `tempArrayEnd` indexes the
  byte array with the sample count, so the rest of the file is least
  significant byte first and its bytes depend on the machine
  (`Ppm.PrefixSwapExample`, `Ppm.CrossHostExample`).

## Model

Definitions that only compute have no contract of their own; the lemma rows
that cite the same source lines state what they mean:

- `Vec3d.Dot`, `Vec3d.Cross`, `Vec3d.Length`, `Vec3d.Equal`,
  `Vec3d.NotEqual`, `Vec3d.LessThan`, `Vec3d.AtMost`, `Vec3d.GreaterThan`,
  `Vec3d.AtLeast`: `Vec3d.DotLaws`, `Vec3d.SquaredLength`,
  `Vec3d.CrossOrthogonal`, `Vec3d.CrossLaws`, `Vec3d.LengthZero`,
  `Vec3d.ComponentWithinLength`, `Vec3d.EqualityLaws`, `Vec3d.ScalarOrder`;
- `Color.Equal`, `Color.Less`: `Color.EqualIffSame`, `Color.LessIsWeakOrder`,
  `Color.DistinctButIncomparable`;
- `Mat.At`, `Mat.Sum`, `Mat.Length`, `Mat.Average`: `Mat.AtExtensional`,
  `Mat.TransposeAt`, `Mat.ProductAt`, `Mat.FillSum`, `Mat.ScalarSum`,
  `Mat.CombineLaws`, `Mat.SquaresOf`, `Mat.AbsLaws`;
- `Tif.DefaultOptions`: `Tif.DefaultOptionsValid`;
- `Exr.NamedOptions`, `Exr.UnnamedOptions`, `Exr.HasNamedChannels`,
  `Exr.NumberOfChannels`: `Exr.DefaultNames`, `Exr.UnnamedChannelName`;
  `Exr.ExportFlatKind`, `Exr.ImportFlatKind`: `Exr.SelectionsAgree`;
- `Endian.IsLittleEndian`, `Endian.IsBigEndian`: `Endian.IsLittleEndianCorrect`;
- `OffsetIterator.Deref`, `OffsetIterator.Equal`, `OffsetIterator.DistanceTo`,
  `OffsetIterator.ToBase`: `OffsetIterator.ReadChannel`,
  `OffsetIterator.EqualIff`, `OffsetIterator.AdvanceRoundTrip`;
- `Buffer2D.At`: `Buffer2D.AtPut`, `Buffer2D.RowMajorLayout`;
  `Buffer2D.Max`, `Buffer2D.Min`: `Buffer2D.MaxElement`,
  `Buffer2D.MinElement`; `Buffer2D.Add`, `Buffer2D.Sub`, `Buffer2D.Mul`,
  `Buffer2D.Div`, `Buffer2D.Negate` and the scalar forms `Buffer2D.AddScalar`,
  `Buffer2D.SubScalar`, `Buffer2D.MulScalar`, `Buffer2D.DivScalar`:
  `Buffer2D.OperatorsElementwise`, `Buffer2D.OperatorsCheckSize`,
  `Buffer2D.AddSubCancel`, `Buffer2D.ScalarTimes`;
- `Ppm.HeaderText`, `Pfm.HeaderText`: `Ppm.HeaderLayout`, `Pfm.HeaderLayout`
  and the header round trips;
- `ImageIO.Chain`: `ImageIO.ChainIsTable`.

| member | source | states |
|---|---|---|
| Buffer2D.EmptyIffNoElements | Photography_Lighting/include/buffer2d.h:47-51 | a valid buffer's `size()` is width times height, and `empty()` holds exactly when it has no elements |
| Buffer2D.Allocate | Photography_Lighting/include/buffer2d.inline.h:125-147 | a zero area gives width = height = size = 0; otherwise the dimensions are kept and element i is `init[i]` |
| Buffer2D.Deallocate | Photography_Lighting/include/buffer2d.inline.h:154-166 | every dimension and the size become 0 |
| Buffer2D.Copy | Photography_Lighting/include/buffer2d.h:29 | the copy is valid, and equals a source in normal form (no zero dimension beside a positive one) |
| Buffer2D.Fresh | Photography_Lighting/include/buffer2d.h:28 | a buffer built from dimensions and data holds that data and, for a positive area, those dimensions |
| Buffer2D.Resize | Photography_Lighting/include/buffer2d.inline.h:85-89 | the result has the dimensions of a fresh `buffer2d(w, h)` and only fresh elements |
| Buffer2D.ResizeForgetsContents | Photography_Lighting/include/buffer2d.inline.h:85-89 | the result does not depend on the old contents |
| Buffer2D.Put | Photography_Lighting/include/buffer2d.h:54 | writing through `operator()(x, y)` keeps the buffer valid and its dimensions |
| Buffer2D.RowMajorLayout | Photography_Lighting/include/buffer2d.h:138-139 | every offset i is reached by exactly one in-range pair, x = i % width and y = i / width |
| Buffer2D.IndexInjective | Photography_Lighting/include/buffer2d.h:138-139 | two distinct in-range pairs never share an offset |
| Buffer2D.AtPut | Photography_Lighting/include/buffer2d.h:53-54 | after writing (x, y), (x, y) reads the value and every other pair reads what it read before |
| Buffer2D.UnaryOperation | Photography_Lighting/include/buffer2d.inline.h:16-23 | same dimensions, and element i is op of element i |
| Buffer2D.UnaryOperationInPlace | Photography_Lighting/include/buffer2d.inline.h:31-37 | the loop writes op of element i back into every position |
| Buffer2D.BinaryOperation | Photography_Lighting/include/buffer2d.inline.h:45-56 | fails with `buffer2dIllegalSize` iff the dimensions differ; else element i is op(a[i], b[i]) |
| Buffer2D.BinaryOperationInPlace | Photography_Lighting/include/buffer2d.inline.h:64-74 | the loop fails exactly as the const form does and otherwise computes the same buffer |
| Buffer2D.ScalarTimes | Photography_Lighting/include/buffer2d.h:106 | `s * b` multiplies every element by s, the same buffer as `b * s` |
| Buffer2D.AbsAll | Photography_Lighting/include/buffer2d.h:95 | every element becomes its absolute value |
| Buffer2D.AddSubCancel | Photography_Lighting/include/buffer2d.h:62-65 | adding and then subtracting the same buffer gives the original back |
| Buffer2D.OperatorsElementwise | Photography_Lighting/include/buffer2d.h:61-69 | element i of `-b`, `b + s`, `b - s`, `b * s`, `b / s` and of the buffer-buffer forms is the element operator on element i (division truncating); adding and then subtracting a scalar gives the elements back |
| Buffer2D.OperatorsCheckSize | Photography_Lighting/include/buffer2d.h:121 | every buffer-buffer operator fails with `buffer2dIllegalSize` exactly when the dimensions differ |
| Buffer2D.Clear | Photography_Lighting/include/buffer2d.h:94 | every element becomes s, and the dimensions are kept |
| Buffer2D.MaxElement | Photography_Lighting/include/buffer2d.h:96 | on a non-empty buffer, an element that is at least every element |
| Buffer2D.MinElement | Photography_Lighting/include/buffer2d.h:97 | on a non-empty buffer, an element that is at most every element |
| Buffer2D.Swap | Photography_Lighting/include/buffer2d.inline.h:173-179 | dimensions and storage change places |
| Buffer2D.Assign | Photography_Lighting/include/buffer2d.inline.h:186-196 | self-assignment changes nothing; otherwise the target takes the source's size, and equals a normal-form source |
| Buffer2D.RawBytesSlice | Photography_Lighting/include/buffer2d.inline.h:107 | element i of the raw storage occupies bytes [i*k, (i+1)*k) |
| Buffer2D.Reinterpret | Photography_Lighting/include/buffer2d.inline.h:107 | reading n elements of size k from storage decodes n consecutive k-byte words |
| Buffer2D.WordInBounds | Photography_Lighting/include/buffer2d.inline.h:108-110 | every word of the remapped buffer lies inside the old storage |
| Buffer2D.RemapFits | Photography_Lighting/include/buffer2d.inline.h:108-110 | the remapped size in bytes never exceeds the old storage |
| Buffer2D.Remap | Photography_Lighting/include/buffer2d.inline.h:104-118 | width rescaled by sizeof(T)/sizeof(S), height kept, size = width*height, source left empty |
| Buffer2D.RemapSameSize | Photography_Lighting/include/buffer2d.inline.h:104-118 | remapping to a same-sized type whose decoding undoes the encoding keeps the buffer |
| Buffer2D.RemapCanBreakNormalForm | Photography_Lighting/include/buffer2d.inline.h:108-110 | a one-byte element type remapped to a four-byte one can give width 0 with a positive height |
| CopyFrom.CopyFrom | Photography_Lighting/include/copyFrom.h:10-18 | dest[first+i] == input[i] for i < last-first, last-first inputs read, positions outside [first, last) unchanged |
| CopyFrom.CopyFromEmptyRange | Photography_Lighting/include/copyFrom.h:14 | an empty destination range writes and reads nothing |
| ChannelView.Channels | Photography_Lighting/include/iteratorWrapper.h:43-49 | a fundamental value has one channel; an aggregate has as many as its fields |
| ChannelView.SetChannel | Photography_Lighting/include/iteratorWrapper.h:51-52 | a write through `operator[]` keeps the wrapped element's kind and channel count |
| ChannelView.ScalarView | Photography_Lighting/include/iteratorWrapper.h:127-135 | a fundamental value has size 1, iterates to itself, and `operator[]` returns it for any index |
| ChannelView.IndexIsIteration | Photography_Lighting/include/iteratorWrapper.h:51-52 | `operator[](i)` is the i-th channel of the iteration |
| ChannelView.ReadAfterWrite | Photography_Lighting/include/iteratorWrapper.h:37-58 | a write through the wrapper is seen by a later read of that channel and by no other channel |
| ChannelView.WithChannelsRoundTrip | Photography_Lighting/include/iteratorWrapper.h:43-52 | writing back the channels just read changes nothing, and written channels read back |
| OffsetIterator.Increment | Photography_Lighting/include/offset_iterator.h:44 | the base moves one step and the offset is unchanged |
| OffsetIterator.Decrement | Photography_Lighting/include/offset_iterator.h:45 | the base moves one step back and the offset is unchanged |
| OffsetIterator.Advance | Photography_Lighting/include/offset_iterator.h:46 | the base moves by n and the offset is unchanged |
| OffsetIterator.ToConst | Photography_Lighting/include/offset_iterator.h:74 | the const iterator has the same base and offset |
| OffsetIterator.AdvanceRoundTrip | Photography_Lighting/include/offset_iterator.h:44-48 | advancing by n and back by n gives an equal iterator, at distance n from the start |
| OffsetIterator.EqualIff | Photography_Lighting/include/offset_iterator.h:80-81 | equality holds iff the bases and the offsets are equal |
| OffsetIterator.Store | Photography_Lighting/include/offset_iterator.h:90 | writing through the reference `dereference()` returns: the iterator then reads the value, the element keeps its other channels and its size, and every other element is unchanged |
| OffsetIterator.ReadChannel | Photography_Lighting/include/offset_iterator.h:50 | a walk from the first to the last element reads channel c of every element, in order |
| OffsetIterator.WriteChannel | Photography_Lighting/include/offset_iterator.h:90 | writing channel c of every element changes that channel and leaves all other channels |
| Numeric.WrapUnsignedIsResidue | Photography_Lighting/include/buffer2dIO.util.h:27 | a cast to an unsigned type of `bits` bits gives exactly the value of [0, 2^bits) that differs from the source by a multiple of 2^bits |
| Numeric.WrapSignedIsResidue | Photography_Lighting/include/buffer2dIO.util.h:27 | a cast to a signed type of `bits` bits gives exactly the value of [-2^(bits-1), 2^(bits-1)) that differs from the source by a multiple of 2^bits |
| PixelConvert.Wrap | Photography_Lighting/include/buffer2dIO.util.h:27 | the integral cast lands in the target type's range, differs from the source by a multiple of 2^(8*size), and keeps a value that already fits |
| PixelConvert.WrapIsResidue | Photography_Lighting/include/buffer2dIO.util.h:27 | r is the cast of x exactly when r is in the target type's range and differs from x by a multiple of 2^(8*size), so the cast is modular and not saturating |
| PixelConvert.FloatToInt | Photography_Lighting/include/buffer2dIO.util.h:55 | a defined result is in TO's range; a source in [0, 1] gives a defined, non-negative result |
| PixelConvert.IntToFloat | Photography_Lighting/include/buffer2dIO.util.h:70 | the normalised value is at most 1, and non-negative for a non-negative source |
| PixelConvert.IntToInt | Photography_Lighting/include/buffer2dIO.util.h:84-88 | the result is in the target type's range and congruent, modulo 2^(8*size of TO), to the source times 2^d when widening and to the source divided by 2^d, rounded down, when narrowing, d being the difference of the sizes in bytes |
| PixelConvert.IntToIntIsResidue | Photography_Lighting/include/buffer2dIO.util.h:84-88 | r is the conversion exactly when r is in the target type's range and congruent to the shifted value modulo 2^(8*size of TO) |
| PixelConvert.WidenShiftsByBytes | Photography_Lighting/include/buffer2dIO.util.h:86 | widening to a larger type of the same signedness multiplies by 2 to the difference in bytes, with no wrap |
| PixelConvert.NarrowShiftsByBytes | Photography_Lighting/include/buffer2dIO.util.h:87 | narrowing divides by 2 to the difference in bytes, rounding down, and keeps a quotient that is a value of the narrower type |
| PixelConvert.Convert | Photography_Lighting/include/buffer2dIO.util.h:21-92 | a defined result fits the target type; floating targets and floats in [0, 1] to integers are defined; integral to integral is defined exactly when it is not the left shift of a negative value into a wider signed type, which is undefined before C++20 |
| PixelConvert.ConvertChecked | Photography_Lighting/include/buffer2dIO.util.h:21-92 | a defined result fits the target type, whatever the input |
| PixelConvert.ConvertSameType | Photography_Lighting/include/buffer2dIO.util.h:34-44 | converting a value to its own type gives it back |
| PixelConvert.SameTypeFlagMeaning | Photography_Lighting/include/buffer2dIO.util.h:30-91 | `sameType()` is false for identical types, true for float to uint8_t, false for uint8_t to float and to uint16_t |
| PixelConvert.WidenFits | Photography_Lighting/include/buffer2dIO.util.h:86 | widening by a shift stays inside the wider type |
| PixelConvert.WidenNarrowRoundTrip | Photography_Lighting/include/buffer2dIO.util.h:84-88 | widening to a larger type of the same signedness is undefined exactly for a negative signed value; otherwise narrowing back gives the value back |
| PixelConvert.ByteShiftNotRescale | Photography_Lighting/include/buffer2dIO.util.h:86-87 | kept as written: 8-bit 255 becomes 510 in 16 bits, not 65535; 16-bit 65535 and 256 become 255 and 128 in 8 bits; signed 8-bit -1 to 16 bits is undefined |
| PixelConvert.IntToFloatRange | Photography_Lighting/include/buffer2dIO.util.h:70 | an integral value normalises to at most 1; a non-negative one to [0, 1]; the maximum to 1 |
| PixelConvert.FloatToIntUnitRange | Photography_Lighting/include/buffer2dIO.util.h:55 | a real in [0, 1] converts to an integer in [0, max]; 0 gives 0 and 1 gives max |
| PixelConvert.IntFloatRoundTrip | Photography_Lighting/include/buffer2dIO.util.h:55-70 | integer to real and back to the same type gives the integer back |
| PixelConvert.FloatToIntOf | Photography_Lighting/include/buffer2dIO.util.h:55 | a real that scales exactly onto an integer of the type converts to that integer |
| Marshal.FlatOne | Photography_Lighting/include/buffer2dIO.util.h:114-123 | one pixel's block: dc values, its first channels converted, then the converted pad |
| Marshal.PixelToFlat | Photography_Lighting/include/buffer2dIO.util.h:99-127 | the flat array holds exactly dc values per pixel |
| Marshal.PixelToFlatAll | Photography_Lighting/include/buffer2dIO.util.h:107-123 | every flat value is an output of the convertor |
| Marshal.PixelToFlatStep | Photography_Lighting/include/buffer2dIO.util.h:111-124 | the flat array is the first pixel's block followed by the rest |
| Marshal.PixelToFlatAt | Photography_Lighting/include/buffer2dIO.util.h:118-123 | value i*dc+c is channel c converted when the pixel has it, the converted pad otherwise |
| Marshal.ConvertPixelToFlat | Photography_Lighting/include/buffer2dIO.util.h:99-127 | the three loops compute `PixelToFlat` |
| Marshal.CopyBlock | Photography_Lighting/include/buffer2dIO.util.h:114-123 | one pixel's copy and pad loops append that pixel's block |
| Marshal.UnflatOne | Photography_Lighting/include/buffer2dIO.util.h:148-159 | an element of n channels takes converted source values for c < sc and the raw pad after |
| Marshal.FlatToPixel | Photography_Lighting/include/buffer2dIO.util.h:134-163 | one element per destination element |
| Marshal.FlatToPixelShape | Photography_Lighting/include/buffer2dIO.util.h:145-160 | element j keeps the kind and channel count of the destination element |
| Marshal.FlatToPixelAt | Photography_Lighting/include/buffer2dIO.util.h:152-159 | channel c of element j is the converted value at the element's cursor plus c, or the raw pad |
| Marshal.FlatToPixelStep | Photography_Lighting/include/buffer2dIO.util.h:145-160 | the result is the first element followed by the rest read from the advanced cursor |
| Marshal.ReadElement | Photography_Lighting/include/buffer2dIO.util.h:152-159 | the inner loop fills one element as `UnflatOne` and moves the cursor by its channel count |
| Marshal.ConvertFlatToPixel | Photography_Lighting/include/buffer2dIO.util.h:134-163 | the nested loops compute `FlatToPixel` |
| Marshal.UniformOffset | Photography_Lighting/include/buffer2dIO.util.h:152 | with n-channel elements, element j starts at j*n whatever sc is |
| Marshal.UniformReadsFit | Photography_Lighting/include/buffer2dIO.util.h:145-159 | |dst|*sc source values cover every read when the elements have sc channels |
| Marshal.RoundTrip | Photography_Lighting/include/buffer2dIO.util.h:99-163 | flattening n-channel pixels and reading them back with an inverse convertor gives them back |
| Marshal.ChannelThrough | Photography_Lighting/include/buffer2dIO.util.h:99-163 | channel c of pixel j comes back as g(f(channel c)) |
| Marshal.UniformRead | Photography_Lighting/include/buffer2dIO.util.h:152-155 | with sc == n, channel c of element j is the converted value j*n+c |
| Marshal.PadOnUnflatten | Photography_Lighting/include/buffer2dIO.util.h:158 | channels past sc get the pad unconverted, while flattening converts it |
| Marshal.OneIntoThreeOverreads | Photography_Lighting/include/buffer2dIO.util.h:152 | kept as written: two one-channel pixels read into three-channel elements need three source values per element |
| Marshal.FourIntoThreeMisaligns | Photography_Lighting/include/buffer2dIO.util.h:152 | kept as written: four-channel data read into three-channel elements starts element 2 inside pixel 1 |
| Marshal.ReadBackAt | Photography_Lighting/include/buffer2dIO.util.h:134-163 | words repeating the flat array read back into n-channel elements give the pixels' channels |
| Marshal.UniformReadsFitIff | Photography_Lighting/include/buffer2dIO.util.h:145-159 | n-channel elements read from a stream of sc values per pixel fit exactly when n <= sc |
| Codec.FlatSameTypeAt | Photography_Lighting/include/buffer2dIO.util.h:34-44 | flattening to the pixels' own sample type converts nothing |
| Codec.ResizeShape | Photography_Lighting/include/buffer2dIO.ppm.h:143 | the resized result has w by h elements of the blank element's shape |
| Endian.IsLittleEndianCorrect | Photography_Lighting/include/Endian.h:11-12 | the magic-number test holds exactly on a little-endian host; `isBigEndian` is its negation |
| Endian.SwapOrder | Photography_Lighting/include/Endian.detail.h:16-31 | byte i of the result is byte size-1-i of the value, so the result is the byte reversal |
| Endian.ToLittle | Photography_Lighting/include/Endian.h:17-22 | the bytes themselves on a little-endian host; otherwise byte i is byte size-1-i |
| Endian.ToBig | Photography_Lighting/include/Endian.h:35-40 | the bytes themselves on a big-endian host; otherwise byte i is byte size-1-i |
| Endian.ToLittleAll | Photography_Lighting/include/Endian.h:24-30 | every element of the range converted as the scalar form converts it |
| Endian.ToBigAll | Photography_Lighting/include/Endian.h:42-48 | every element of the range converted as the scalar form converts it |
| Endian.SwapInvolution | Photography_Lighting/include/Endian.detail.h:16-31 | swapping twice is the identity, so `little(little(v))` and `big(big(v))` are v |
| Endian.FileBytesHostIndependent | Photography_Lighting/include/Endian.h:17-40 | on any host `little` yields the little-endian bytes of the value and `big` the big-endian bytes |
| Endian.ReadFileBytes | Photography_Lighting/include/Endian.h:17-40 | reading little-endian (big-endian) bytes through `little` (`big`) gives the value they encode |
| Tif.MakeOptions | Photography_Lighting/include/buffer2dIO.tif.options.h:52-61 | `unsupportedFormat` unless UINT/INT have 8, 16 or 32 bits or FLOAT has 32 or 64 |
| Tif.FlatType | Photography_Lighting/include/buffer2dIO.tif.detail.h:21-47 | defined exactly for a listed depth of a known format: a type of bits/8 bytes, floating for FLOAT, signed integral for INT, unsigned for UINT; otherwise `customException` |
| Tif.MakeOptionsAccepts | Photography_Lighting/include/buffer2dIO.tif.options.h:52-61 | the constructor rejects exactly the depths the format does not list |
| Tif.DefaultOptionsValid | Photography_Lighting/include/buffer2dIO.tif.options.h:23-28 | the defaults, FLOAT with 32 bits and LZW (code 5), pass validation |
| Tif.CheckedOptionsDispatch | Photography_Lighting/include/buffer2dIO.tif.detail.h:21-44 | options the constructor accepts always dispatch, to a type of the requested format and size |
| Tif.Export | Photography_Lighting/include/buffer2dIO.tif.detail.h:14-50 | dispatch, then `convertPixelToFlat` to the selected type |
| Tif.Import | Photography_Lighting/include/buffer2dIO.tif.detail.h:54-90 | the same dispatch table, then `convertFlatToPixel` from the selected type |
| Tif.ExportedValuesFit | Photography_Lighting/include/buffer2dIO.tif.detail.h:21-44 | every exported value is of the flat type the options name |
| Exr.CompressionCode | Photography_Lighting/include/buffer2dIO.exr.options.h:9-18 | the compression codes run from 0 to 7 |
| Exr.RgbOptions | Photography_Lighting/include/buffer2dIO.exr.options.h:31-36 | the default constructor keeps the compression and channel type it is given and names the channels R, G, B |
| Exr.DefaultOptions | Photography_Lighting/include/buffer2dIO.exr.options.h:31-36 | `options()` is ZIP compression, FLOAT channels, and the channels R, G, B |
| Exr.ChannelName | Photography_Lighting/include/buffer2dIO.exr.options.h:65-74 | the stored name for an index below the count, else "C" and the index printed with "%d" |
| Exr.UnnamedChannelName | Photography_Lighting/include/buffer2dIO.exr.options.h:70-72 | an unnamed index below 2^31 gives "C" and its decimal, read back exactly; from 2^31 a minus sign follows the C |
| Exr.DefaultNames | Photography_Lighting/include/buffer2dIO.exr.options.h:31-86 | defaults have three named channels, as the named constructor given R, G, B has; `unnamedOptions()` has none and channel 0 is "C0" |
| Exr.BytesPerPixel | Photography_Lighting/include/buffer2dIO.exr.detail.h:17-23 | 4 for UINT and FLOAT, 2 for HALF, `customException` otherwise |
| Exr.SelectionsAgree | Photography_Lighting/include/buffer2dIO.exr.detail.h:17-49 | the three selections accept the same types, both directions pick the same flat type, and the byte count is its size |
| HeaderScan.SkipSpace | Photography_Lighting/include/buffer2dIO.ppm.h:116 | white space is skipped from pos up to the end or a character that is not white space |
| HeaderScan.ScanChar | Photography_Lighting/include/buffer2dIO.ppm.h:114 | `%c` takes the next character, white space included, or fails at the end |
| HeaderScan.ScanLiteral | Photography_Lighting/include/buffer2dIO.ppm.h:114 | a literal of the format matches exactly that character |
| HeaderScan.ScanNumber | Photography_Lighting/include/buffer2dIO.ppm.h:116 | `%lu` succeeds exactly when a digit follows the white space and an optional sign, and stops at the end or at a non-digit |
| HeaderScan.NumberIsInt | Photography_Lighting/include/buffer2dIO.ppm.h:116 | `%lu` reads what `%d` reads and stops where it stops; a value that is not negative is the same, and a negative value v >= -2^64 becomes 2^64 + v |
| HeaderScan.ScanNegativeNumber | Photography_Lighting/include/buffer2dIO.ppm.h:116 | "-" and the digits of n, 0 < n <= 2^64, scan under `%lu` as 2^64 - n
| HeaderScan.ScanReal | Photography_Lighting/include/buffer2dIO.pfm.h:84 | `%g` consumes text, stops at the end or at a non-digit, and reads a negative value only after a minus sign |
| HeaderScan.SkipComment | Photography_Lighting/include/buffer2dIO.ppm.h:27-39 | the stop position is at or after pos and is not at a token |
| HeaderScan.SkipCommentSkipsCommentLines | Photography_Lighting/include/buffer2dIO.ppm.h:27-39 | everything skipped is whole token-led lines, each including its terminator |
| HeaderScan.SkipCommentIdempotent | Photography_Lighting/include/buffer2dIO.pfm.h:22-34 | a second skip from where the first stopped does not move |
| HeaderScan.ScanNumberAt | Photography_Lighting/include/buffer2dIO.ppm.h:116 | the printed decimal of n followed by a non-digit scans back as n |
| HeaderScan.ScanMinusOne | Photography_Lighting/include/buffer2dIO.pfm.h:84 | the text "-1.000000" scans under `%g` as -1 |
| HeaderScan.ScanMagic | Photography_Lighting/include/buffer2dIO.ppm.h:114 | "P%c%c" reads 'P', the type character and one more character |
| HeaderScan.ScanInt | Photography_Lighting/include/buffer2dIO.pfm.h:82 | `%d` succeeds exactly when a digit follows the white space and an optional sign, stops at the end or at a non-digit, and reads a negative value only after a minus sign |
| HeaderScan.ScanSignedDecimal | Photography_Lighting/include/buffer2dIO.pfm.h:82 | what "%d" prints scans back under `%d`, the sign included |
| HeaderScan.ScanDecimal | Photography_Lighting/include/buffer2dIO.pfm.h:82 | the digits of a non-negative number scan back under `%d` as that number |
| HeaderScan.ScanNegativeDecimal | Photography_Lighting/include/buffer2dIO.pfm.h:82 | a minus sign and the digits of n scan back under `%d` as -n |
| Ppm.WordType | Photography_Lighting/include/buffer2dIO.ppm.h:44-48 | 8, 16 and 32 bits store uint8_t, uint16_t and uint32_t samples |
| Ppm.MaxValue | Photography_Lighting/include/buffer2dIO.ppm.h:71-86 | the maxval written is 255, 65535 or 4294967295 |
| Ppm.DepthOf | Photography_Lighting/include/buffer2dIO.ppm.h:130-133 | maxval 255, 65535, 2^32-1 selects 8, 16, 32 bits; any other leaves the depth unset |
| Ppm.DepthOfMaxValue | Photography_Lighting/include/buffer2dIO.ppm.h:130-132 | reading back the maxval of a depth selects that depth |
| Ppm.TypeChar | Photography_Lighting/include/buffer2dIO.ppm.h:64 | '5' exactly for one channel, '6' otherwise |
| Ppm.ChannelsOf | Photography_Lighting/include/buffer2dIO.ppm.h:124-126 | '6' gives 3 channels, '5' gives 1, anything else throws `unsupportedFormat` |
| Ppm.TypeCharRoundTrip | Photography_Lighting/include/buffer2dIO.ppm.h:64-126 | one and three channels come back as written; two come back as three |
| Ppm.HeaderDims | Photography_Lighting/include/buffer2dIO.ppm.h:116 | "%lu%c%lu%c" over digits, a space, digits and a newline reads the two numbers and stops after the newline |
| Ppm.HeaderLast | Photography_Lighting/include/buffer2dIO.ppm.h:118 | "%lu%c" over digits and a newline reads the maxval and stops after the newline |
| Ppm.ParseHeader | Photography_Lighting/include/buffer2dIO.ppm.h:113-120 | a header is found only in text starting with 'P', its type being the second character, and the data starts after the magic number |
| Ppm.ParseHeaderText | Photography_Lighting/include/buffer2dIO.ppm.h:92 | the header the exporter prints scans back field by field, with the data right after it |
| Ppm.ParseHeaderOf | Photography_Lighting/include/buffer2dIO.ppm.h:92 | the same for any three runs of digits |
| Ppm.HeaderLayout | Photography_Lighting/include/buffer2dIO.ppm.h:92 | the exporter's header is magic, newline, width, space, height, newline, maxval, newline |
| Ppm.WordBytes | Photography_Lighting/include/buffer2dIO.ppm.h:80-86 | a sample the swap reaches is stored as k bytes whose big-endian value is the sample wrapped to k bytes |
| Ppm.LittleBytes | Photography_Lighting/include/buffer2dIO.ppm.h:80-86 | a sample the swap does not reach is stored as k bytes whose little-endian value is the sample wrapped to k bytes |
| Ppm.WordRoundTrip | Photography_Lighting/include/buffer2dIO.ppm.h:149-155 | a sample of the type's range stored most significant byte first is read back as written |
| Ppm.SampleBytesInMemory | Photography_Lighting/include/buffer2dIO.ppm.h:80-86 | on either host a swapped sample lies in memory most significant byte first; on a little-endian host an unswapped one lies least significant byte first |
| Ppm.StoredRoundTrip | Photography_Lighting/include/buffer2dIO.ppm.h:149-155 | a sample of the type's range is read back as written when the importer's swap reaches it exactly when the exporter's did |
| Ppm.BigPrefix | Photography_Lighting/include/tempArray.h:40 | the swap's end pointer is byte w*h*n of the array: on a little-endian host it swaps the p samples with p*k <= w*h*n < p*k + k, on a big-endian host nothing needs swapping |
| Ppm.DataBytesAt | Photography_Lighting/include/buffer2dIO.ppm.h:80-93 | sample i occupies bytes [i*k, i*k+k) of the data area, most significant byte first where the swap reached it and least significant first elsewhere |
| Ppm.PrefixSwapExample | Photography_Lighting/include/buffer2dIO.ppm.h:80 | the 16-bit grey samples 258 and 772 are written 01 02 04 03 on a little-endian host and 01 02 03 04 on a big-endian host |
| Ppm.Export | Photography_Lighting/include/buffer2dIO.ppm.h:53-97 | empty buffer: `buffer2dIllegalSize`; more than 3 channels: `customException`; unspecified when w*h*n*k reaches 2^32 or, on a little-endian host, k does not divide w*h*n; else the header followed by w*h*n samples of the depth's size |
| Ppm.Samples | Photography_Lighting/include/buffer2dIO.ppm.h:145-155 | sample i is read from bytes [i*k, i*k+k), most significant byte first where the importer's swap reached it and least significant first elsewhere |
| Ppm.ReadPixels | Photography_Lighting/include/buffer2dIO.ppm.h:136-156 | unspecified when w*h*n*k reaches 2^32, when on a little-endian host k does not divide w*h*n, or when the data is short; when defined, a valid buffer with the dimensions of `result` resized to w by h |
| Ppm.Import | Photography_Lighting/include/buffer2dIO.ppm.h:103-159 | a failed scan throws `customException`, a type other than '5' or '6' exactly `unsupportedFormat`; an unknown maxval leaves the result unspecified |
| Ppm.SampleRoundTrip | Photography_Lighting/include/buffer2dIO.ppm.h:145-156 | the bytes of a sample that fits the depth, as either swap leaves them, read back as that sample on a host of the same byte order |
| Ppm.ExportSameType | Photography_Lighting/include/buffer2dIO.ppm.h:66-93 | with the array allocated in full and a swap loop that stops, pixels already of the sample type are written as the header followed by every channel value, each as the swap left it |
| Ppm.ExportImportRoundTrip | Photography_Lighting/include/buffer2dIO.ppm.h:53-159 | exported and imported on hosts of the same byte order, one- or three-channel pixels that fit the depth come back unchanged, with the same dimensions |
| Ppm.FileHeader | Photography_Lighting/include/buffer2dIO.ppm.h:113-120 | the importer finds the exporter's header and the data right after it |
| Ppm.ReadPixelsRoundTrip | Photography_Lighting/include/buffer2dIO.ppm.h:136-156 | reading, on the exporter's host, the data area the exporter wrote gives the pixels back |
| Ppm.ChannelsBack | Photography_Lighting/include/buffer2dIO.ppm.h:145-156 | on the exporter's host, every channel of every element is read back |
| Ppm.WordsBack | Photography_Lighting/include/buffer2dIO.ppm.h:136-155 | on the exporter's host, the samples of the data area are the flat array they were written from |
| Ppm.CrossHostExample | Photography_Lighting/include/buffer2dIO.ppm.h:149-150 | a file written on a little-endian host gives the 16-bit samples 258 and 772 back on a big-endian host as 258 and 1027 |
| Pfm.HeaderDims | Photography_Lighting/include/buffer2dIO.pfm.h:82 | "%d%c%d%c" over digits, a space, digits and a newline reads the two numbers and stops after the newline |
| Pfm.AfterDims | Photography_Lighting/include/buffer2dIO.pfm.h:84 | "%g%c" over the text "-1.000000" and a character reads the scale -1, and the data starts after that character |
| Pfm.ParseHeader | Photography_Lighting/include/buffer2dIO.pfm.h:79-87 | a header is found only in text starting with 'P', its type being the second character, and the data starts after the magic number |
| Pfm.ParseHeaderText | Photography_Lighting/include/buffer2dIO.pfm.h:56 | the exporter's header scans back as type 'F', the dimensions and scale -1 |
| Pfm.ParseHeaderOf | Photography_Lighting/include/buffer2dIO.pfm.h:56 | the same for any type character and any two runs of digits |
| Pfm.HeaderLayout | Photography_Lighting/include/buffer2dIO.pfm.h:56 | the header is "PF", newline, width, space, height, newline, "-1.000000", newline |
| Pfm.ChannelsOf | Photography_Lighting/include/buffer2dIO.pfm.h:88-91 | 'f' gives one channel and 'F' three; any other type throws `unsupportedFormat` |
| Pfm.FloatBytes | Photography_Lighting/include/buffer2dIO.pfm.h:51 | a float is stored as four bytes whose little-endian value is its 32-bit pattern |
| Pfm.FloatRoundTrip | Photography_Lighting/include/buffer2dIO.pfm.h:105-106 | a representable float written little-endian is read back as written |
| Pfm.FloatBytesOnAnyHost | Photography_Lighting/include/buffer2dIO.pfm.h:51 | the stored bytes are what `endian::little` leaves in memory on any host |
| Pfm.FloatOfOnAnyHost | Photography_Lighting/include/buffer2dIO.pfm.h:105-106 | on any host, positive scale: big-endian read; otherwise little-endian |
| Pfm.Export | Photography_Lighting/include/buffer2dIO.pfm.h:41-61 | an empty buffer, and only that, throws `buffer2dIllegalSize`; otherwise the header followed by three four-byte floats per pixel |
| Pfm.Loaded | Photography_Lighting/include/buffer2dIO.pfm.h:101 | `fread` supplies the whole words present, up to the count asked for |
| Pfm.ReadPixels | Photography_Lighting/include/buffer2dIO.pfm.h:100-110 | when defined, the result is a valid buffer with the dimensions of `result` resized to w by h |
| Pfm.Import | Photography_Lighting/include/buffer2dIO.pfm.h:67-113 | a failed scan or a type other than 'f'/'F' throws `unsupportedFormat`, and only those; a width or height outside [0, 2^31) leaves the result unspecified |
| Pfm.ExportFloats | Photography_Lighting/include/buffer2dIO.pfm.h:49-57 | three-channel float pixels are written as they are, after the header |
| Pfm.WordsBack | Photography_Lighting/include/buffer2dIO.pfm.h:100-101 | the floats of the data area are the flat array they were written from |
| Pfm.ChannelsBack | Photography_Lighting/include/buffer2dIO.pfm.h:110 | read into three-channel elements, every channel comes back |
| Pfm.FileHeader | Photography_Lighting/include/buffer2dIO.pfm.h:79-84 | the importer finds the exporter's header and the float data right after it |
| Pfm.ReadPixelsRoundTrip | Photography_Lighting/include/buffer2dIO.pfm.h:100-110 | reading the data area the exporter wrote gives the pixels back |
| Pfm.ExportImportRoundTrip | Photography_Lighting/include/buffer2dIO.pfm.h:41-113 | three-channel float pixels narrow enough not to wrap come back unchanged, with the same dimensions |
| Pfm.ImportReads | Photography_Lighting/include/buffer2dIO.pfm.h:87-110 | after a scanned 'f'/'F' header with dimensions below 2^31, the import is the pixel read |
| Pfm.ReadPixelsShort | Photography_Lighting/include/buffer2dIO.pfm.h:100-110 | fewer than three floats per pixel of a three-channel result makes the read undefined |
| Pfm.GreyIntoColourOverreads | Photography_Lighting/include/buffer2dIO.pfm.h:110 | kept as written: a grey file into a colour result reads past the array |
| Pfm.WidthWraps | Photography_Lighting/include/buffer2dIO.pfm.h:100 | kept as written: more than 2^32/3 columns make the width product wrap |
| Pfm.WideColourOverreads | Photography_Lighting/include/buffer2dIO.pfm.h:100-110 | kept as written: a colour file that wide reads past its array |
| Pfm.GreyIntoGrey | Photography_Lighting/include/buffer2dIO.pfm.h:110 | a grey file into a grey result: pixel j takes float j of the data area |
| ImageIO.Extension | Photography_Lighting/include/imageIO.inline.h:14 | the last three characters, or `out_of_range` for a name shorter than three |
| ImageIO.ImportImage | Photography_Lighting/include/imageIO.inline.h:11-23 | a short name throws `out_of_range`; every failure is that or `unsupportedFormat` |
| ImageIO.ExportImage | Photography_Lighting/include/imageIO.inline.h:31-43 | a short name throws `out_of_range`; every failure is that or `unsupportedFormat` |
| ImageIO.ChainIsTable | Photography_Lighting/include/imageIO.inline.h:16-22 | on three characters, the comparison chain of both functions is the extension table |
| ImageIO.DispatchByTable | Photography_Lighting/include/imageIO.inline.h:14-42 | import and export agree; a listed extension selects its format, any other fails |
| ImageIO.FourLetterExtensionsUnsupported | Photography_Lighting/include/imageIO.inline.h:20-22 | kept as written: names ending in jpeg/JPEG/tiff/TIFF throw `unsupportedFormat` |
| ImageIO.JpegRefusedJpgAccepted | Photography_Lighting/include/imageIO.inline.h:20-22 | "photo.jpeg" fails while "photo.jpg" selects JPEG |
| ImageIO.MixedCaseRefused | Photography_Lighting/include/imageIO.inline.h:36-42 | "hdr.Pfm" is unsupported while "hdr.PFM" selects PFM |
| Mat.AtExtensional | Photography_Lighting/include/mat.inline.h:10-33 | two same-sized matrices agreeing at every (x, y) are equal |
| Mat.Init | Photography_Lighting/include/mat.inline.h:266-286 | a zero area gives 0 by 0; else the dimensions with the first width*height values of the data |
| Mat.CopyIsIdentity | Photography_Lighting/include/mat.h:31 | the copy constructor reproduces its source |
| Mat.Fill | Photography_Lighting/include/mat.h:64 | every element becomes the value |
| Mat.SquaresOf | Photography_Lighting/include/mat.h:101 | `length()` is non-negative and zero exactly when every element is |
| Mat.FillSum | Photography_Lighting/include/mat.h:102-103 | a filled matrix sums to size() times the value, and averages to it |
| Mat.Scalar | Photography_Lighting/include/mat.h:77-81 | element i becomes element i combined with the scalar |
| Mat.ScalarInverse | Photography_Lighting/include/mat.inline.h:101-118 | subtracting undoes adding, dividing by a nonzero scalar undoes multiplying |
| Mat.ScalarSum | Photography_Lighting/include/mat.h:77-102 | adding v adds size()*v to `sum()`; multiplying scales `sum()` |
| Mat.Combine | Photography_Lighting/include/mat.inline.h:137-200 | requires equal dimensions; element i is a[i] plus (or minus) b[i] |
| Mat.CombineLaws | Photography_Lighting/include/mat.inline.h:137-166 | subtraction undoes addition, addition commutes, `sum()` is additive |
| Mat.Threshold | Photography_Lighting/include/mat.inline.h:213-219 | an element becomes 0 exactly when strictly between the bounds; others are kept |
| Mat.ThresholdAbout | Photography_Lighting/include/mat.inline.h:206-210 | `threshold(v)` zeroes exactly the zeros and the elements with absolute value below v |
| Mat.ThresholdLaws | Photography_Lighting/include/mat.inline.h:213-219 | thresholding is idempotent, and the identity when no integer lies between the bounds |
| Mat.AbsOf | Photography_Lighting/include/mat.inline.h:226-231 | negative elements are negated, others kept |
| Mat.AbsLaws | Photography_Lighting/include/mat.inline.h:226-231 | `Abs()` is idempotent, keeps `length()`, and is the identity iff no element is negative |
| Mat.Transpose | Photography_Lighting/include/mat.inline.h:238-247 | a height by width matrix |
| Mat.TransposeAt | Photography_Lighting/include/mat.inline.h:238-247 | result(y, x) == this(x, y) |
| Mat.TransposeInvolution | Photography_Lighting/include/mat.inline.h:238-247 | transposing twice gives the matrix back |
| Mat.Product | Photography_Lighting/include/mat.inline.h:78-94 | requires other.height == width; the result is other.width by height |
| Mat.ProductAt | Photography_Lighting/include/mat.inline.h:78-94 | r(i, j) is the sum over k of this(k, j) * other(i, k) |
| Mat.TransposeOfProduct | Photography_Lighting/include/mat.inline.h:78-94 | the transpose of a product is the product of the transposes in the opposite order |
| Mat.Tally | Photography_Lighting/include/mat.inline.h:316-319 | the counts of smaller and of larger elements together do not exceed the positions |
| Mat.TallyZero | Photography_Lighting/include/mat.inline.h:316-319 | both counts are zero exactly when the two data sequences are equal |
| Mat.TallySwap | Photography_Lighting/include/mat.inline.h:316-319 | swapping the operands swaps the two counts |
| Mat.Compare | Photography_Lighting/include/mat.inline.h:305-325 | -1 for different sizes; else 0 if all equal, -1 on a tie of counts, else greater minus less |
| Mat.CompareZeroIffEqual | Photography_Lighting/include/mat.h:90-91 | `==` holds exactly between equal matrices |
| Mat.CompareSwap | Photography_Lighting/include/mat.inline.h:305-325 | with equal sizes and unequal counts, swapping the operands negates the result |
| Mat.CompareBothLess | Photography_Lighting/include/mat.inline.h:305-325 | kept as written: both orders compare below for mismatched sizes and for tied counts |
| Color.Grey | Photography_Lighting/include/color.h:23 | `color(v)` has channels v, v, v |
| Color.Channels | Photography_Lighting/include/color.h:33-39 | iteration visits `size()` == 3 channels |
| Color.FromChannels | Photography_Lighting/include/color.h:24 | `color(r, g, b)` takes the values in order |
| Color.Channel | Photography_Lighting/include/color.h:44-45 | `operator[]` 0, 1, 2 give r, g, b |
| Color.ChannelsRoundTrip | Photography_Lighting/include/color.h:24-39 | the constructor and channel iteration are inverse |
| Color.Zip | Photography_Lighting/include/color.h:47-52 | channel i is the operation of the two channels i |
| Color.Scale | Photography_Lighting/include/color.h:47-52 | channel i is the operation of channel i and the scalar |
| Color.ScaleIsZipWithGrey | Photography_Lighting/include/color.h:47-52 | a scalar operation is the colour operation with a grey colour |
| Color.ZipInverse | Photography_Lighting/include/color.h:47-50 | subtraction undoes addition; division by nonzero channels undoes multiplication |
| Color.Length | Photography_Lighting/include/color.h:40 | non-negative, and zero exactly for black |
| Color.AbsSum | Photography_Lighting/include/color.h:41 | zero exactly for black, and its square bounds `length()` |
| Color.EqualIffSame | Photography_Lighting/include/color.h:68-69 | `==` is equality of all channels and `!=` its negation |
| Color.LessIsWeakOrder | Photography_Lighting/include/color.h:70-73 | irreflexive, transitive, incomparable exactly on equal lengths |
| Color.DistinctButIncomparable | Photography_Lighting/include/color.h:70-73 | kept as written: red and green are neither `<` the other |
| Color.Swap | Photography_Lighting/include/color.h:30 | both colours trade all three channels |
| Color.SwapTwice | Photography_Lighting/include/color.h:30 | swapping twice restores both colours |
| Vec3d.Fill | Photography_Lighting/include/vec3d.inline.h:13-18 | x, y and z all equal the value |
| Vec3d.Components | Photography_Lighting/include/vec3d.h:56-61 | iteration visits three components |
| Vec3d.Component | Photography_Lighting/include/vec3d.h:63-64 | index 0, 1, 2 gives x, y, z |
| Vec3d.FromRange | Photography_Lighting/include/vec3d.inline.h:38-44 | component i is element i of the range when present, else pad |
| Vec3d.FromRangeLaws | Photography_Lighting/include/vec3d.inline.h:38-44 | at most three elements are read, and a vector's own components rebuild it |
| Vec3d.EqualityLaws | Photography_Lighting/include/vec3d.h:68-69 | `==` is equality and `!=` its negation |
| Vec3d.SquaredLength | Photography_Lighting/include/vec3d.h:98 | the dot product with itself: non-negative, zero only for the zero vector |
| Vec3d.ScalarOrder | Photography_Lighting/include/vec3d.h:71-74 | the comparisons with a scalar ignore its sign, pair as complements, and for val >= 0 mean length < val |
| Vec3d.Zip | Photography_Lighting/include/vec3d.h:76-84 | component i is the operation of the two components i |
| Vec3d.Shift | Photography_Lighting/include/vec3d.h:76-84 | component i is the operation of component i and the scalar |
| Vec3d.Negate | Photography_Lighting/include/vec3d.h:76 | adding the negation to the vector gives the zero vector |
| Vec3d.ArithmeticLaws | Photography_Lighting/include/vec3d.inline.h:62-171 | a scalar operation is the vector one with a filled vector, and the inverses cancel |
| Vec3d.DotLaws | Photography_Lighting/include/vec3d.h:97 | the dot product is symmetric and distributes over addition |
| Vec3d.SquaredDistance | Photography_Lighting/include/vec3d.h:100 | the squared length of the difference |
| Vec3d.SquaredDistanceSymmetric | Photography_Lighting/include/vec3d.h:100 | the squared distance does not depend on the order |
| Vec3d.CrossOrthogonal | Photography_Lighting/include/vec3d.inline.h:179-184 | a x b is orthogonal to a |
| Vec3d.CrossLaws | Photography_Lighting/include/vec3d.inline.h:179-184 | anticommutative, orthogonal to both factors, zero for a vector with itself |
| Vec3d.MinOf | Photography_Lighting/include/vec3d.h:106 | component-wise minimum |
| Vec3d.MaxOf | Photography_Lighting/include/vec3d.h:107 | component-wise maximum |
| Vec3d.MinMaxLaws | Photography_Lighting/include/vec3d.h:106-116 | min and max commute, bound both arguments, and absorb each other |
| Vec3d.AbsOf | Photography_Lighting/include/vec3d.h:114 | no component is negative, and the squared length is kept |
| Vec3d.Sqrt | Photography_Lighting/include/vec3d.h:99 | the truncated square root: r*r <= n < (r+1)*(r+1) |
| Vec3d.SqrtUnique | Photography_Lighting/include/vec3d.h:99 | any r with that bracket is the root |
| Vec3d.SqrtBelow | Photography_Lighting/include/vec3d.h:99 | for val >= 0 the root of n is below val exactly when n is below val*val |
| Vec3d.Normalize | Photography_Lighting/include/vec3d.inline.h:191-196 | `zeroLengthVector` is thrown exactly for the zero vector |
| Vec3d.NormalizeDivides | Photography_Lighting/include/vec3d.inline.h:191-196 | any other vector has a positive length and normalises to its components each divided by it, truncating |
| Vec3d.LengthZero | Photography_Lighting/include/vec3d.h:99 | `length()` is 0 exactly for the zero vector |
| Vec3d.ComponentWithinLength | Photography_Lighting/include/vec3d.h:99 | no component exceeds the length in absolute value |
| Vec3d.NormalizeUnit | Photography_Lighting/include/vec3d.inline.h:191-196 | every component of a normalised vector lies in [-1, 1] |
| Vec3d.NormalizeAxis | Photography_Lighting/include/vec3d.inline.h:191-196 | (0, 0, 2) normalises to (0, 0, 1) |
| Vec3d.Swap | Photography_Lighting/include/vec3d.inline.h:203-208 | both vectors trade all three components |
| Vec3d.SwapTwice | Photography_Lighting/include/vec3d.h:112 | swapping twice restores both vectors |

## Left out

- File I/O (`fopen`, `fscanf`, `fread`, `fwrite`, `fclose`): a file is a byte sequence; a file that cannot be opened (`fileNotFound`) is not modelled.
- IEEE 754 encodings and rounding: float bit patterns are the parameter functions `bits`/`value`; float-to-integer conversion truncates a real.
- HeaderScan.ScanReal: `%g` scanning of exponents, `inf` and `nan` is not modelled; only plain decimal text is scanned. A scale written with an exponent, such as "-1e-3", scans as -1 and stops at the 'e', so the `%c` of `Pfm.ScanScale` takes the 'e' and the modelled pixel data starts at "-3" and the rest of that line, where the real `%g%c` of pfm.h:84 consumes the whole number and the newline and the data starts after the newline.
- The OpenEXR `half` type: only its selection and its two-byte size are modelled.
- LAPACK wrappers (mat_operations.h) and the libtiff, OpenEXR, libpng and libjpeg backends (buffer2dIO.tif.h, buffer2dIO.exr.h, buffer2dIO.png.h, buffer2dIO.jpg.h): foreign calls.
- `pow`, `raises.h` and `operator^` of buffer2d, mat, color and vec3d: floating-point powers.
- `color::average` and the friend `operator<<`: floating point and stream output.
- The vec3d cast operator: a conversion between element types, and the model has one element type, `int`.
- Vec3d.Sqrt: `length()`, `distance()` and `normalize()` divide by a floating-point square root; the model uses the truncated integer square root.
- Integer overflow of element arithmetic in mat, color, vec3d and buffer2d: elements are unbounded `int`; division truncates toward zero as C++ does.
- Mat.Init: the unsigned 32-bit product width*height in `_alloc` is not wrapped.
- The compound operators of mat, color and vec3d (`+=` and the rest) are the same functions as the binary operators they equal.
- `mat::swap`, `mat::operator=` and destructors: the value model has no shared storage, so they are copies of values.
- The exception classes (exceptions.h and the headers beside it): one `Error` datatype replaces them.
- Host endianness detection through memory: the host's byte order is a parameter of type `Endian.Order`.
- Ppm.DepthOf: a maxval other than 255, 65535 or 2^32-1 leaves the bit depth unspecified (an `unsupportedFormat` object is built there but never thrown).
- Exr.ChannelName: the name is the string `%d` prints; the buffer it is printed into is not modelled. buffer2dIO.exr.options.h:69 declares it as `char str[1+(sizeof(index)/3)]`, 2 bytes for a 4-byte index, while `sprintf(str, "C%d", index)` at line 70 writes at least 3 (the C, one digit and the terminating zero), so every generated name overflows the buffer, which is undefined behaviour.
- `new`/`delete` and the raw pointer aliasing of `remap`: only dimensions, contents and ownership are modelled.
- `tempArray.h` is modelled only through its `unsigned int` size (`Ppm.ArrayFits`) and the byte index of `tempArrayEnd` (`Ppm.BigPrefix`).
- Buffer2D.Allocate: the `size_t` product width*height is not wrapped modulo 2^64; a buffer whose area reaches 2^64 elements cannot be allocated, but the source would record a wrapped size for it.
- Ppm.ReadPixels: the `unsigned long` product w*h*n is not wrapped modulo 2^64; any w*h*n*k of 2^32 or more gives an unspecified result, although for dimensions whose product wraps to 0 the source returns an empty buffer.
- Ppm.Export: the `unsigned long` product w*h*n is not wrapped modulo 2^64; the buffer's own area is below 2^64, and any w*h*n*k of 2^32 or more is unspecified in any case.
- HeaderScan.NumberIsInt: a magnitude of 2^64 or more, which `unsigned long` cannot hold and C leaves undefined, is read as its exact value when there is no minus sign and as the negated value modulo 2^64 after one; no overflow outcome is modelled.
- PixelConvert.IntToInt: before C++20 the right shift of a negative value and the conversion to a signed type that cannot hold the value are implementation-defined, not undefined; the model gives them the arithmetic shift and the modular conversion that C++20 prescribes, and `Convert` leaves only the undefined negative left shift without a result.
- PixelConvert.IntFloatRoundTrip: holds in exact real arithmetic only; in IEEE single precision the quotient v/max is rounded, and scaling it back can truncate to v - 1.
- The TIFF and OpenEXR copy constructors and inspectors: with value records they return the stored fields.
