/** Facts about the flat-array kernel that the PPM and PFM codecs share:
    where a flat value comes from, the kernel with the convertor of a type
    to itself, and the buffer an importer resizes into.
 */
module Codec {
  import opened Wrappers
  import opened ChannelView
  import opened PixelConvert
  import Marshal
  import Buffer2D
  import Numeric

  /** Index i of a flat array of blocks of n values is channel i % n of
      pixel i / n. */
  lemma FlatIndex(i: nat, m: nat, n: nat)
    requires i < m * n
    ensures n > 0 && i / n < m && i % n < n && i == (i / n) * n + i % n
  {
    if i / n >= m {
      Numeric.MulLe(m, i / n, n);
    }
  }

  /** With pixels of n channels that all fit the sample type, flattening
      to the same type converts nothing: flat value i is defined and is
      channel i % n of pixel i / n. */
  lemma FlatSameTypeAt(ps: seq<Element<Sample>>, n: nat, pad: Sample, t: SampleType, i: nat)
    requires ValidType(t) && Marshal.Uniform(ps, n)
    requires forall j, c :: 0 <= j < |ps| && 0 <= c < n ==> Fits(t, Channels(ps[j])[c])
    requires i < |ps| * n
    ensures i / n < |ps| && i % n < n && i % n < |Channels(ps[i / n])|
    ensures var flat := Marshal.PixelToFlat(ps, n, pad, Converter(t, t));
            flat[i] == Some(Channels(ps[i / n])[i % n]) && Fits(t, flat[i].value)
  {
    var conv := Converter(t, t);
    FlatIndex(i, |ps|, n);
    var j, c := i / n, i % n;
    Marshal.PixelToFlatAt(ps, n, pad, conv, j, c);
    ConvertSameType(t, Channels(ps[j])[c]);
  }

  /** A valid buffer with elements has positive dimensions. */
  lemma PositiveDims<T>(b: Buffer2D.Buffer<T>)
    requires Buffer2D.Valid(b) && |b.data| > 0
    ensures b.width > 0 && b.height > 0
  {
    Buffer2D.EmptyIffNoElements(b);
  }

  /** The buffer an importer resizes to w by h with a blank element of n
      channels: w by h elements, all of n channels. */
  lemma ResizeShape<V>(result: Buffer2D.Buffer<Element<V>>, w: nat, h: nat, blank: Element<V>, n: nat)
    requires w > 0 && h > 0 && Size(blank) == n
    ensures var dst := Buffer2D.Resize(result, w, h, blank);
            dst.width == w && dst.height == h && |dst.data| == w * h && Marshal.Uniform(dst.data, n)
  {
    assert w * h > 0;
  }
}
