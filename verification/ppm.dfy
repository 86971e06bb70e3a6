/** The binary Netpbm codec: `P5` grey maps (one channel) and `P6` pixel
    maps (three channels), with 8-, 16- or 32-bit samples after a text
    header.

    The samples are meant to be stored most significant byte first.
    `endian::big` leaves them so on a big-endian host; on a little-endian
    host it swaps only the first w*h*n / k samples of k bytes, and the rest
    stay least significant byte first. The exporter and the importer take
    the host's byte order as a parameter.

    A file is the sequence of its bytes. The exporter produces those bytes
    and the importer consumes them; opening, reading and writing the file
    itself is not modelled. Where the program goes on with an
    uninitialised bit depth, reads past the data it loaded, writes or
    reads past the end of its temporary array, or runs its swap loop past
    that array, the model yields `Ok(None)`: the call returns without an
    exception but what it stores is unspecified.
 */
module Ppm {
  import opened Numeric
  import opened Wrappers
  import opened ChannelView
  import opened PixelConvert
  import opened HeaderScan
  import Marshal
  import Endian
  import Buffer2D
  import Codec

  /** `bit_depth`; the 32-bit depth is the program's own extension of the
      format. */
  datatype BitDepth = Ppm8 | Ppm16 | Ppm32

  /** The enumerator values: bits per sample. */
  function Bits(d: BitDepth): nat
  {
    match d
    case Ppm8 => 8
    case Ppm16 => 16
    case Ppm32 => 32
  }

  /** The sample type each depth stores: uint8_t, uint16_t or uint32_t. */
  function WordType(d: BitDepth): (t: SampleType)
    ensures ValidType(t) && t.Integral? && !t.signed && 8 * t.size == Bits(d) && t.size > 0
  {
    match d
    case Ppm8 => U8
    case Ppm16 => U16
    case Ppm32 => U32
  }

  /** The maxval the exporter writes: the largest value of the sample type. */
  function MaxValue(d: BitDepth): (m: nat)
    ensures m == MaxOf(WordType(d))
  {
    assert Pow2(8) == 256;
    Pow2Add(8, 8);
    Pow2Add(16, 16);
    match d
    case Ppm8 => 255
    case Ppm16 => 65535
    case Ppm32 => 4294967295
  }

  /** The importer's choice of bit depth from the maxval read; any other
      maxval leaves the depth unset (the exception for it is constructed
      but never thrown). */
  function DepthOf(colors: nat): (r: Option<BitDepth>)
    ensures r.Some? ==> MaxValue(r.value) == colors
    ensures r.None? ==> forall d: BitDepth :: MaxValue(d) != colors
  {
    if colors == 255 then Some(Ppm8)
    else if colors == 65535 then Some(Ppm16)
    else if colors == 4294967295 then Some(Ppm32)
    else None
  }

  /** Reading back the maxval of a depth selects that depth again. */
  lemma DepthOfMaxValue(d: BitDepth)
    ensures DepthOf(MaxValue(d)) == Some(d)
    ensures DepthOf(0) == None && DepthOf(1023) == None
  {
  }

  /** The character after 'P' in the magic identifier: '5' for exactly
      one channel, '6' for any other count. */
  function TypeChar(numChannels: nat): (c: char)
    ensures c == '5' <==> numChannels == 1
    ensures c == '5' || c == '6'
  {
    if numChannels == 1 then '5' else '6'
  }

  /** The channel count the importer takes from the type character, or
      None where it throws `unsupportedFormat`. */
  function ChannelsOf(typeChar: char): (r: Option<nat>)
    ensures r.Some? <==> typeChar == '5' || typeChar == '6'
    ensures r.Some? ==> r.value == 1 || r.value == 3
  {
    if typeChar == '6' then Some(3)
    else if typeChar == '5' then Some(1)
    else None
  }

  /** One and three channels come back as they were written; a
      two-channel export is read back as three channels, and no file the
      exporter writes is read as any other count. */
  lemma TypeCharRoundTrip(n: nat)
    ensures n == 1 || n == 3 ==> ChannelsOf(TypeChar(n)) == Some(n)
    ensures n != 1 ==> ChannelsOf(TypeChar(n)) == Some(3)
  {
  }

  /** The header the exporter prints: "P", the type character, a newline,
      width, a space, height, a newline, maxval, a newline. */
  function HeaderText(typeChar: char, w: nat, h: nat, maxValue: nat): string
  {
    HeaderOf(typeChar, Decimal(w), Decimal(h), Decimal(maxValue))
  }

  /** The exporter's header layout around three printed numbers. */
  function HeaderOf(typeChar: char, dw: string, dh: string, dm: string): string
  {
    ['P', typeChar, '\n'] + dw + [' '] + dh + ['\n'] + dm + ['\n']
  }

  /** What the importer's three `fscanf` calls read: the type character,
      the dimensions and the maxval, and where the sample data starts. */
  datatype Header = Header(typeChar: char, width: nat, height: nat, maxValue: nat, dataStart: nat)

  /** "%lu%c%lu%c": width, one character, height, one character. */
  function ScanDims(s: string, pos: nat): (r: Option<(nat, nat, nat)>)
    requires pos <= |s|
    ensures r.Some? ==> pos < r.value.2 <= |s|
  {
    var width :- ScanNumber(s, pos);
    var dummy1 :- ScanChar(s, width.1);
    var height :- ScanNumber(s, dummy1.1);
    var dummy2 :- ScanChar(s, height.1);
    Some((width.0, height.0, dummy2.1))
  }

  /** "%lu%c": a number and one character. */
  function ScanLast(s: string, pos: nat): (r: Option<(nat, nat)>)
    requires pos <= |s|
    ensures r.Some? ==> pos < r.value.1 <= |s|
  {
    var n :- ScanNumber(s, pos);
    var dummy :- ScanChar(s, n.1);
    Some((n.0, dummy.1))
  }

  /** The header scan: "P%c%c", comments, "%lu%c%lu%c", comments,
      "%lu%c". None when any of the eight conversions fails, which is
      exactly when the importer's count differs from 8. */
  function ParseHeader(s: string): (r: Option<Header>)
    ensures r.Some? ==> 2 < |s| && s[0] == 'P' && r.value.typeChar == s[1]
    ensures r.Some? ==> 3 < r.value.dataStart <= |s|
  {
    var magic :- ScanMagic(s);
    ParseAfterMagic(s, magic.0, SkipComment(s, magic.1, '#'))
  }

  /** The rest of the header scan once the magic number is read and the
      comments after it are skipped. */
  function ParseAfterMagic(s: string, typeChar: char, pos: nat): (r: Option<Header>)
    requires pos <= |s|
    ensures r.Some? ==> pos < r.value.dataStart <= |s| && r.value.typeChar == typeChar
  {
    var dims :- ScanDims(s, pos);
    ParseAfterDims(s, typeChar, dims.0, dims.1, SkipComment(s, dims.2, '#'))
  }

  /** The last conversion of the header scan, the maxval. */
  function ParseAfterDims(s: string, typeChar: char, w: nat, h: nat, pos: nat): (r: Option<Header>)
    requires pos <= |s|
    ensures r.Some? ==> pos < r.value.dataStart <= |s| && r.value.typeChar == typeChar
  {
    var colors :- ScanLast(s, pos);
    Some(Header(typeChar, w, h, colors.0, colors.1))
  }

  /** The header the exporter prints is read back field by field, and the
      data is found right after it, whatever follows. */
  lemma ParseHeaderText(typeChar: char, w: nat, h: nat, m: nat, rest: string)
    ensures ParseHeader(HeaderText(typeChar, w, h, m) + rest) ==
            Some(Header(typeChar, w, h, m, |HeaderText(typeChar, w, h, m)|))
  {
    var dw, dh, dm := Decimal(w), Decimal(h), Decimal(m);
    assert HeaderText(typeChar, w, h, m) == HeaderOf(typeChar, dw, dh, dm);
    ParseHeaderOf(typeChar, dw, dh, dm, rest);
    assert Header(typeChar, ParseDecimal(dw), ParseDecimal(dh), ParseDecimal(dm), |dw| + |dh| + |dm| + 6) ==
           Header(typeChar, w, h, m, |HeaderText(typeChar, w, h, m)|) by {
      DecimalRoundTrip(w);
      DecimalRoundTrip(h);
      DecimalRoundTrip(m);
    }
  }

  /** ParseHeaderText for any three runs of digits. */
  lemma ParseHeaderOf(typeChar: char, dw: string, dh: string, dm: string, rest: string)
    requires DigitRun(dw) && DigitRun(dh) && DigitRun(dm)
    ensures ParseHeader(HeaderOf(typeChar, dw, dh, dm) + rest) ==
            Some(Header(typeChar, ParseDecimal(dw), ParseDecimal(dh), ParseDecimal(dm), |dw| + |dh| + |dm| + 6))
  {
    HeaderLayout(typeChar, dw, dh, dm, rest);
    ParseHeaderAt(HeaderOf(typeChar, dw, dh, dm) + rest, typeChar, dw, dh, dm);
  }

  /** From position a on, s holds the digits dw, a space, the digits dh
      and a newline. */
  predicate DimsAt(s: string, a: nat, dw: string, dh: string)
  {
    TextAt(s, a, dw) && a + |dw| < |s| && s[a + |dw|] == ' ' &&
    TextAt(s, a + |dw| + 1, dh) && a + |dw| + 1 + |dh| < |s| && s[a + |dw| + 1 + |dh|] == '\n'
  }

  /** From position c on, s holds the digits dm and a newline. */
  predicate LastAt(s: string, c: nat, dm: string)
  {
    TextAt(s, c, dm) && c + |dm| < |s| && s[c + |dm|] == '\n'
  }

  /** DimsAt, then LastAt: the layout of the header after "P6\n". */
  predicate FieldsAt(s: string, a: nat, dw: string, dh: string, dm: string)
  {
    DimsAt(s, a, dw, dh) && LastAt(s, a + |dw| + 1 + |dh| + 1, dm)
  }

  /** A header of the exporter's layout scans as its three numbers, and
      the data starts after the newline that ends it. */
  lemma ParseHeaderAt(s: string, typeChar: char, dw: string, dh: string, dm: string)
    requires DigitRun(dw) && DigitRun(dh) && DigitRun(dm)
    requires 3 <= |s| && s[0] == 'P' && s[1] == typeChar && s[2] == '\n'
    requires FieldsAt(s, 3, dw, dh, dm)
    ensures ParseHeader(s) == Some(Header(typeChar, ParseDecimal(dw), ParseDecimal(dh), ParseDecimal(dm), |dw| + |dh| + |dm| + 6))
  {
    var w, h, m := ParseDecimal(dw), ParseDecimal(dh), ParseDecimal(dm);
    var c := 3 + |dw| + 1 + |dh| + 1;
    var e := |dw| + |dh| + |dm| + 6;
    FieldsScan(s, 3, dw, dh, dm, w, h, c);
    HeaderLast(s, c, dm, m, e);
    assert s[3] != '#' by {
      TextAtIff(s, 3, dw);
    }
    HeaderScanned(s, typeChar, w, h, m, c, e);
  }

  /** The header scan from the results of its four steps. */
  lemma HeaderScanned(s: string, typeChar: char, w: nat, h: nat, m: nat, c: nat, e: nat)
    requires 3 < |s| && s[0] == 'P' && s[1] == typeChar && s[3] != '#'
    requires c <= |s| && ScanDims(s, 3) == Some((w, h, c)) && SkipComment(s, c, '#') == c
    requires ScanLast(s, c) == Some((m, e))
    ensures ParseHeader(s) == Some(Header(typeChar, w, h, m, e))
  {
    assert ScanMagic(s) == Some((typeChar, 3));
    assert SkipComment(s, 3, '#') == 3;
  }

  /** The dimensions scan over the layout of FieldsAt, and no comment
      comes before the maxval. */
  lemma FieldsScan(s: string, a: nat, dw: string, dh: string, dm: string, w: nat, h: nat, c: nat)
    requires DigitRun(dw) && DigitRun(dh) && DigitRun(dm) && FieldsAt(s, a, dw, dh, dm)
    requires w == ParseDecimal(dw) && h == ParseDecimal(dh) && c == a + |dw| + 1 + |dh| + 1
    ensures c <= |s| && LastAt(s, c, dm)
    ensures ScanDims(s, a) == Some((w, h, c))
    ensures SkipComment(s, c, '#') == c
  {
    LastStarts(s, c, dm);
    HeaderDims(s, a, dw, dh, w, h, c);
  }

  /** The maxval starts with a digit, so no comment precedes it. */
  lemma LastStarts(s: string, c: nat, dm: string)
    requires DigitRun(dm) && LastAt(s, c, dm)
    ensures c < |s| && SkipComment(s, c, '#') == c
  {
    TextAtIff(s, c, dm);
    assert s[c] == dm[0];
  }

  /** The exporter's header has the layout the importer scans. */
  lemma HeaderLayout(typeChar: char, dw: string, dh: string, dm: string, rest: string)
    ensures var s := HeaderOf(typeChar, dw, dh, dm) + rest;
            3 <= |s| && s[0] == 'P' && s[1] == typeChar && s[2] == '\n' && FieldsAt(s, 3, dw, dh, dm)
  {
    var s := HeaderOf(typeChar, dw, dh, dm) + rest;
    var b := 3 + |dw| + 1;
    var c := b + |dh| + 1;
    TextAtIff(s, 3, dw);
    TextAtIff(s, b, dh);
    TextAtIff(s, c, dm);
  }

  /** Two runs of digits, each followed by one character that is not a
      digit, scan under "%lu%c%lu%c" as the two numbers. */
  lemma HeaderDims(s: string, a: nat, dw: string, dh: string, w: nat, h: nat, c: nat)
    requires DigitRun(dw) && DigitRun(dh) && DimsAt(s, a, dw, dh)
    requires w == ParseDecimal(dw) && h == ParseDecimal(dh) && c == a + |dw| + 1 + |dh| + 1
    ensures ScanDims(s, a) == Some((w, h, c))
  {
    var e1 := a + |dw|;
    NumberAt(s, a, dw);
    NumberAt(s, e1 + 1, dh);
    ScanDimsOf(s, a, w, e1, h, e1 + 1 + |dh|);
  }

  lemma ScanDimsOf(s: string, a: nat, w: nat, e1: nat, h: nat, e2: nat)
    requires a <= |s| && e1 < |s| && e2 < |s|
    requires ScanNumber(s, a) == Some((w, e1))
    requires ScanNumber(s, e1 + 1) == Some((h, e2))
    ensures ScanDims(s, a) == Some((w, h, e2 + 1))
  {
  }

  /** A run of digits and a newline scan under "%lu%c" as the number. */
  lemma HeaderLast(s: string, c: nat, dm: string, m: nat, e: nat)
    requires DigitRun(dm) && LastAt(s, c, dm)
    requires m == ParseDecimal(dm) && e == c + |dm| + 1
    ensures ScanLast(s, c) == Some((m, e))
  {
    NumberAt(s, c, dm);
    ScanLastOf(s, c, m, c + |dm|);
  }

  lemma ScanLastOf(s: string, c: nat, m: nat, e: nat)
    requires c <= |s| && e < |s|
    requires ScanNumber(s, c) == Some((m, e))
    ensures ScanLast(s, c) == Some((m, e + 1))
  {
  }

  /** A sample after `endian::big` has swapped it: its k bytes, most
      significant first. */
  function WordBytes(k: nat, v: int): (r: seq<Byte>)
    ensures |r| == k
    ensures WordValue(r) == WrapUnsigned(8 * k, v)
  {
    var le := Endian.EncodeLE(k, WrapUnsigned(8 * k, v));
    Endian.ReverseReverse(le);
    Endian.DecodeEncodeLE(k, WrapUnsigned(8 * k, v));
    Endian.Reverse(le)
  }

  /** The value of a sample stored most significant byte first. */
  function WordValue(bs: seq<Byte>): (v: nat)
    ensures v < Pow2(8 * |bs|)
  {
    Endian.DecodeLE(Endian.Reverse(bs))
  }

  /** A sample the swap did not reach on a little-endian host: its k bytes
      in the host's own order, least significant first. */
  function LittleBytes(k: nat, v: int): (r: seq<Byte>)
    ensures |r| == k
    ensures Endian.DecodeLE(r) == WrapUnsigned(8 * k, v)
  {
    Endian.DecodeEncodeLE(k, WrapUnsigned(8 * k, v));
    Endian.EncodeLE(k, WrapUnsigned(8 * k, v))
  }

  /** `endian::big` on the exporting host and on the importing host
      cancel: a sample of the type's range is read back as written. */
  lemma WordRoundTrip(k: nat, v: int)
    requires 0 <= v < Pow2(8 * k)
    ensures WordValue(WordBytes(k, v)) == v
  {
    Endian.ReverseReverse(Endian.EncodeLE(k, v));
    Endian.DecodeEncodeLE(k, v);
  }

  /** On either host, a sample `endian::big` swaps lies in memory most
      significant byte first; on a little-endian host a sample it does not
      reach lies least significant byte first. */
  lemma SampleBytesInMemory(host: Endian.Order, k: nat, v: int)
    ensures WordBytes(k, v) == Endian.ToBig(host, Endian.HostBytes(host, k, WrapUnsigned(8 * k, v)))
    ensures Endian.IsLittleEndian(host) ==> LittleBytes(k, v) == Endian.HostBytes(host, k, WrapUnsigned(8 * k, v))
  {
    Endian.FileBytesHostIndependent(host, k, WrapUnsigned(8 * k, v));
    Endian.IsLittleEndianCorrect(host);
  }

  /** The bytes of a sample in the temporary array once the swap has run:
      most significant first where the swap reached it (`big`), least
      significant first otherwise. */
  function StoredBytes(k: nat, big: bool, v: int): (r: seq<Byte>)
    ensures |r| == k
  {
    if big then WordBytes(k, v) else LittleBytes(k, v)
  }

  /** `StoredBytes` for one sample size, as the exporter applies it to
      every sample tagged with whether the swap reached it. */
  function StoredEncoder(k: nat): (f: ((bool, int)) -> seq<Byte>)
    ensures forall x :: f(x) == StoredBytes(k, x.0, x.1)
  {
    (x: (bool, int)) => StoredBytes(k, x.0, x.1)
  }

  /** The value the importer takes from the k bytes of a sample once its
      own swap has run over them. */
  function StoredValue(big: bool, bs: seq<Byte>): (v: nat)
    ensures v < Pow2(8 * |bs|)
  {
    if big then WordValue(bs) else Endian.DecodeLE(bs)
  }

  /** Whether or not the swap reached it, a sample of the type's range is
      read back as written when the importer's swap reaches it exactly
      when the exporter's did. */
  lemma StoredRoundTrip(k: nat, big: bool, v: int)
    requires 0 <= v < Pow2(8 * k)
    ensures StoredValue(big, StoredBytes(k, big, v)) == v
  {
    if big {
      WordRoundTrip(k, v);
    }
  }

  /** How many leading samples of the temporary array `endian::big(begin,
      end)` leaves most significant byte first. On a big-endian host it
      does nothing and every sample already is. On a little-endian host
      `tempArrayEnd` indexes the byte array with the sample count, so the
      end pointer is byte `count` and only the first count / k samples are
      swapped. */
  function BigPrefix(host: Endian.Order, count: nat, k: nat): (p: nat)
    requires k > 0
    ensures p <= count
    ensures Endian.IsBigEndian(host) ==> p == count
    ensures Endian.IsLittleEndian(host) ==> p * k <= count < p * k + k
  {
    if Endian.IsLittleEndian(host) then DivBounds(count, k); count / k else count
  }

  lemma DivBounds(a: nat, k: nat)
    requires k > 0
    ensures a / k <= a && (a / k) * k <= a < (a / k) * k + k
  {
    assert a == (a / k) * k + a % k;
    if a / k > a {
      MulLe(1, k, a / k);
    }
  }

  /** Whether the swap loop ends: it steps k bytes at a time from byte 0
      and stops only on meeting the end pointer at byte `count`, which on
      a little-endian host it misses when k does not divide count. */
  predicate SwapStops(host: Endian.Order, count: nat, k: nat)
    requires k > 0
  {
    Endian.IsBigEndian(host) || count % k == 0
  }

  /** `tempArray` takes its size as an `unsigned int`: an array of 2^32
      bytes or more is allocated short, and the samples are written or
      read past its end. */
  predicate ArrayFits(count: nat, k: nat)
  {
    count * k < Pow2(32)
  }

  /** The data area the exporter writes from the integer samples ws: the
      k bytes of each sample, each as the swap left it. */
  function DataBytes(host: Endian.Order, k: nat, ws: seq<int>): (r: seq<Byte>)
    requires k > 0
    ensures |r| == |ws| * k
  {
    var tagged := Tagged(host, k, ws);
    Buffer2D.RawBytesLength(tagged, StoredEncoder(k), k);
    Buffer2D.RawBytes(tagged, StoredEncoder(k))
  }

  /** Every sample with whether the swap reaches it. */
  function Tagged(host: Endian.Order, k: nat, ws: seq<int>): (r: seq<(bool, int)>)
    requires k > 0
    ensures |r| == |ws|
    ensures forall i :: 0 <= i < |ws| ==> r[i] == (i < BigPrefix(host, |ws|, k), ws[i])
  {
    var p := BigPrefix(host, |ws|, k);
    seq(|ws|, i requires 0 <= i < |ws| => (i < p, ws[i]))
  }

  /** Sample i occupies bytes [i*k, (i+1)*k) of the data area: ws[i] most
      significant byte first when the swap reached it, least significant
      first when it did not. */
  lemma DataBytesAt(host: Endian.Order, k: nat, ws: seq<int>, i: nat)
    requires k > 0 && i < |ws|
    ensures i * k + k <= |ws| * k
    ensures DataBytes(host, k, ws)[i * k .. i * k + k] == StoredBytes(k, i < BigPrefix(host, |ws|, k), ws[i])
  {
    Buffer2D.RawBytesSlice(Tagged(host, k, ws), StoredEncoder(k), k, i);
  }

  /** Kept as written: on a little-endian host the swap covers only the
      first w*h*n / k samples, so the 16-bit grey samples 258 and 772 are
      written 01 02 04 03 there, and 01 02 03 04 on a big-endian host. */
  lemma PrefixSwapExample()
    ensures DataBytes(Endian.Little, 2, [258, 772]) == [1, 2, 4, 3]
    ensures DataBytes(Endian.Big, 2, [258, 772]) == [1, 2, 3, 4]
  {
    ExampleBytes();
    Endian.IsLittleEndianCorrect(Endian.Little);
    Endian.IsLittleEndianCorrect(Endian.Big);
    var little := Tagged(Endian.Little, 2, [258, 772]);
    var big := Tagged(Endian.Big, 2, [258, 772]);
    assert little == [(true, 258), (false, 772)];
    assert big == [(true, 258), (true, 772)];
    assert little[1..] == [(false, 772)];
    assert big[1..] == [(true, 772)];
  }

  /** The bytes of the samples 258 and 772, most and least significant
      first. */
  lemma ExampleBytes()
    ensures WordBytes(2, 258) == [1, 2] && WordBytes(2, 772) == [3, 4] && LittleBytes(2, 772) == [4, 3]
  {
    Pow2Add(8, 8);
    assert Pow2(8) == 256;
    assert WrapUnsigned(16, 258) == 258 && WrapUnsigned(16, 772) == 772;
    assert Endian.EncodeLE(2, 258) == [2, 1];
    assert Endian.EncodeLE(2, 772) == [4, 3];
    assert Endian.Reverse([2 as Byte, 1]) == [1, 2] by {
      assert Endian.Reverse([1 as Byte]) == [1];
    }
    assert Endian.Reverse([4 as Byte, 3]) == [3, 4] by {
      assert Endian.Reverse([3 as Byte]) == [3];
    }
  }

  /** The integer samples of a converted flat array, or None when some
      conversion is undefined. */
  function DefinedInts(ws: seq<Option<Sample>>): (r: Option<seq<int>>)
    ensures r.Some? <==> forall i :: 0 <= i < |ws| ==> ws[i].Some? && ws[i].value.IntSample?
    ensures r.Some? ==> |r.value| == |ws| && forall i :: 0 <= i < |ws| ==> r.value[i] == ws[i].value.i
  {
    if forall i :: 0 <= i < |ws| ==> ws[i].Some? && ws[i].value.IntSample? then
      Some(seq(|ws|, i requires 0 <= i < |ws| => ws[i].value.i))
    else None
  }

  /** The header as bytes: every character of it is a single byte. */
  function HeaderBytes(typeChar: char, w: nat, h: nat, maxValue: nat): (r: seq<Byte>)
    requires typeChar as int < 256
    ensures Text(r) == HeaderText(typeChar, w, h, maxValue)
  {
    var s := HeaderText(typeChar, w, h, maxValue);
    assert IsAscii(s) by {
      var dw, dh, dm := Decimal(w), Decimal(h), Decimal(maxValue);
      assert forall i :: 0 <= i < |dw| ==> dw[i] as int < 256;
      assert forall i :: 0 <= i < |dh| ==> dh[i] as int < 256;
      assert forall i :: 0 <= i < |dm| ==> dm[i] as int < 256;
    }
    Ascii(s)
  }

  /** `_export(filename, buf, bitDepth, pad)` on a host of the given byte
      order: the file's bytes. An empty buffer throws
      `buffer2dIllegalSize`, and more than three channels in the first
      pixel throw; otherwise every pixel is flattened to as many channels
      as the first pixel has and converted to the depth's sample type.
      None when a conversion is undefined, when the temporary array is
      allocated short, or when the swap loop runs past it. */
  function Export(host: Endian.Order, buf: Buffer2D.Buffer<Element<Sample>>, pixelType: SampleType, depth: BitDepth,
                  pad: Sample): (r: Result<Option<seq<Byte>>>)
    requires Buffer2D.Valid(buf)
    ensures buf.width == 0 || buf.height == 0 ==> r == Fail(IllegalSize)
    ensures buf.width > 0 && buf.height > 0 ==> |buf.data| > 0
    ensures buf.width > 0 && buf.height > 0 ==>
              (r.Fail? <==> Size(buf.data[0]) > 3) &&
              (r.Fail? ==> r.error == Custom("PPM exporter: source buffer contains more than 3 channels."))
    ensures buf.width > 0 && buf.height > 0 && Size(buf.data[0]) <= 3 ==>
              var count := buf.width * buf.height * Size(buf.data[0]);
              var k := WordType(depth).size;
              !(ArrayFits(count, k) && SwapStops(host, count, k)) ==> r == Ok(None)
    ensures r.Ok? && r.value.Some? ==>
              var n := Size(buf.data[0]);
              var header := HeaderText(TypeChar(n), buf.width, buf.height, MaxValue(depth));
              |header| <= |r.value.value| && Text(r.value.value[..|header|]) == header &&
              |r.value.value| == |header| + buf.width * buf.height * n * WordType(depth).size
  {
    if buf.width == 0 || buf.height == 0 then Fail(IllegalSize)
    else
      Buffer2D.EmptyIffNoElements(buf);
      var n := Size(buf.data[0]);
      if n > 3 then Fail(Custom("PPM exporter: source buffer contains more than 3 channels."))
      else
        var t := WordType(depth);
        var k := t.size;
        var flat := Marshal.PixelToFlat(buf.data, n, pad, Converter(pixelType, t));
        assert |flat| == buf.width * buf.height * n;
        match DefinedInts(flat)
        case None => Ok(None)
        case Some(ws) =>
          if !ArrayFits(|ws|, k) || !SwapStops(host, |ws|, k) then Ok(None)
          else
            var header := HeaderBytes(TypeChar(n), buf.width, buf.height, MaxValue(depth));
            var data := DataBytes(host, k, ws);
            assert (header + data)[..|header|] == header;
            Ok(Some(header + data))
  }

  /** The samples the importer takes from the data area: count words of k
      bytes each, read as its own swap leaves them. */
  function Samples(host: Endian.Order, data: seq<Byte>, count: nat, k: nat): (r: seq<Sample>)
    requires k > 0 && count * k <= |data|
    ensures |r| == count
    ensures forall i :: 0 <= i < count ==>
              i * k + k <= |data| &&
              r[i] == IntSample(StoredValue(i < BigPrefix(host, count, k), data[i * k .. i * k + k]))
  {
    var p := BigPrefix(host, count, k);
    var big := Buffer2D.Reinterpret(data, count, k, (bs: seq<Byte>) => IntSample(StoredValue(true, bs)));
    var little := Buffer2D.Reinterpret(data, count, k, (bs: seq<Byte>) => IntSample(StoredValue(false, bs)));
    seq(count, i requires 0 <= i < count => if i < p then big[i] else little[i])
  }

  /** The part of `_import` after the header, on a host of the given byte
      order: `result` resized to w by h, the samples of n channels read
      from the data area and unflattened into it. None when the temporary
      array is allocated short, when the swap loop runs past it, when
      bytes are missing or when a destination element reads past the
      samples. */
  function ReadPixels(host: Endian.Order, data: seq<Byte>, w: nat, h: nat, n: nat, depth: BitDepth,
                      result: Buffer2D.Buffer<Element<Option<Sample>>>, blank: Element<Option<Sample>>,
                      pixelType: SampleType, pad: Option<Sample>): (r: Option<Buffer2D.Buffer<Element<Option<Sample>>>>)
    ensures !ArrayFits(w * h * n, WordType(depth).size) ==> r.None?
    ensures !SwapStops(host, w * h * n, WordType(depth).size) ==> r.None?
    ensures |data| < w * h * n * WordType(depth).size ==> r.None?
    ensures r.Some? ==> r.value.width == Buffer2D.Resize(result, w, h, blank).width &&
                        r.value.height == Buffer2D.Resize(result, w, h, blank).height &&
                        Buffer2D.Valid(r.value)
  {
    var t := WordType(depth);
    var k := t.size;
    var count := w * h * n;
    var dst := Buffer2D.Resize(result, w, h, blank);
    if !ArrayFits(count, k) || !SwapStops(host, count, k) || |data| < count * k then None
    else
      var words := Samples(host, data, count, k);
      if !Marshal.ReadsFit(words, 0, n, dst.data) then None
      else
        Some(dst.(data := Marshal.FlatToPixel(words, 0, n, dst.data, pad, Converter(t, pixelType))))
  }

  /** `_import(filename, result, pad)` on a host of the given byte order:
      the header is scanned, a failed scan throws, and so does a type
      other than '5' or '6'; an unknown maxval leaves the outcome
      unspecified; otherwise the pixels are read into `result`. */
  function Import(host: Endian.Order, file: seq<Byte>, result: Buffer2D.Buffer<Element<Option<Sample>>>,
                  blank: Element<Option<Sample>>, pixelType: SampleType,
                  pad: Option<Sample>): (r: Result<Option<Buffer2D.Buffer<Element<Option<Sample>>>>>)
    ensures ParseHeader(Text(file)).None? ==> r == Fail(Custom("PPM importer: failed to read header."))
    ensures ParseHeader(Text(file)).Some? ==>
              var hd := ParseHeader(Text(file)).value;
              (ChannelsOf(hd.typeChar).None? <==> r.Fail?) &&
              (r.Fail? ==> r.error == UnsupportedFormat) &&
              (DepthOf(hd.maxValue).None? && r.Ok? ==> r.value.None?)
  {
    match ParseHeader(Text(file))
    case None => Fail(Custom("PPM importer: failed to read header."))
    case Some(hd) =>
      match ChannelsOf(hd.typeChar)
      case None => Fail(UnsupportedFormat)
      case Some(n) =>
        match DepthOf(hd.maxValue)
        case None => Ok(None)
        case Some(depth) =>
          Ok(ReadPixels(host, file[hd.dataStart..], hd.width, hd.height, n, depth, result, blank, pixelType, pad))
  }

  /** A sample of the depth's type that fits it, stored as the swap left
      it, reads back as the same sample when the importer's swap reaches
      it exactly when the exporter's did. */
  lemma SampleRoundTrip(depth: BitDepth, big: bool, v: Sample)
    requires Fits(WordType(depth), v)
    ensures IntSample(StoredValue(big, StoredBytes(WordType(depth).size, big, v.i))) == v
  {
    StoredRoundTrip(WordType(depth).size, big, v.i);
  }

  /** Exporting pixels that already have the depth's sample type, with the
      temporary array allocated in full and a swap loop that stops, writes
      the header and then every channel value as it is, each sample as the
      swap left it. */
  lemma ExportSameType(host: Endian.Order, buf: Buffer2D.Buffer<Element<Sample>>, depth: BitDepth, pad: Sample, n: nat)
    requires Buffer2D.Valid(buf) && |buf.data| > 0
    requires n == Size(buf.data[0]) && n <= 3 && Marshal.Uniform(buf.data, n)
    requires forall j, c :: 0 <= j < |buf.data| && 0 <= c < n ==> Fits(WordType(depth), Channels(buf.data[j])[c])
    requires ArrayFits(|buf.data| * n, WordType(depth).size) && SwapStops(host, |buf.data| * n, WordType(depth).size)
    ensures buf.width > 0 && buf.height > 0
    ensures var t := WordType(depth);
            var flat := Marshal.PixelToFlat(buf.data, n, pad, Converter(t, t));
            DefinedInts(flat).Some? &&
            Export(host, buf, t, depth, pad) ==
              Ok(Some(HeaderBytes(TypeChar(n), buf.width, buf.height, MaxValue(depth)) +
                      DataBytes(host, t.size, DefinedInts(flat).value)))
  {
    var t := WordType(depth);
    Codec.PositiveDims(buf);
    FlatDefined(buf.data, n, pad, t);
    assert |Marshal.PixelToFlat(buf.data, n, pad, Converter(t, t))| == |buf.data| * n;
  }

  lemma FlatDefined(ps: seq<Element<Sample>>, n: nat, pad: Sample, t: SampleType)
    requires ValidType(t) && t.Integral? && Marshal.Uniform(ps, n)
    requires forall j, c :: 0 <= j < |ps| && 0 <= c < n ==> Fits(t, Channels(ps[j])[c])
    ensures DefinedInts(Marshal.PixelToFlat(ps, n, pad, Converter(t, t))).Some?
  {
    var flat := Marshal.PixelToFlat(ps, n, pad, Converter(t, t));
    forall i | 0 <= i < |flat|
      ensures flat[i].Some? && flat[i].value.IntSample?
    {
      Codec.FlatSameTypeAt(ps, n, pad, t, i);
    }
  }

  /** `back` holds the pixels of `buf`: the same dimensions, n channels in
      every element, and every channel value present and equal. */
  predicate HoldsPixels(back: Buffer2D.Buffer<Element<Option<Sample>>>, buf: Buffer2D.Buffer<Element<Sample>>, n: nat)
    requires Marshal.Uniform(buf.data, n)
  {
    back.width == buf.width && back.height == buf.height &&
    |back.data| == |buf.data| && Marshal.Uniform(back.data, n) &&
    forall j, c :: 0 <= j < |buf.data| && 0 <= c < n ==> Channels(back.data[j])[c] == Some(Channels(buf.data[j])[c])
  }

  /** A buffer of one- or three-channel pixels whose samples fit the
      depth's sample type, exported at that depth and imported again as
      that type on a host of the same byte order, comes back with its
      dimensions and every channel value, provided the temporary array is
      allocated in full and the swap loop stops. */
  lemma ExportImportRoundTrip(host: Endian.Order, buf: Buffer2D.Buffer<Element<Sample>>, depth: BitDepth, pad: Sample,
                              n: nat, result: Buffer2D.Buffer<Element<Option<Sample>>>,
                              blank: Element<Option<Sample>>, pad2: Option<Sample>)
    requires Buffer2D.Valid(buf) && |buf.data| > 0
    requires n == Size(buf.data[0]) && (n == 1 || n == 3) && Marshal.Uniform(buf.data, n)
    requires Size(blank) == n
    requires forall j, c :: 0 <= j < |buf.data| && 0 <= c < n ==> Fits(WordType(depth), Channels(buf.data[j])[c])
    requires ArrayFits(|buf.data| * n, WordType(depth).size) && SwapStops(host, |buf.data| * n, WordType(depth).size)
    ensures var t := WordType(depth);
            var file := Export(host, buf, t, depth, pad);
            file.Ok? && file.value.Some? &&
            var back := Import(host, file.value.value, result, blank, t, pad2);
            back.Ok? && back.value.Some? && HoldsPixels(back.value.value, buf, n)
  {
    var t := WordType(depth);
    var flat := Marshal.PixelToFlat(buf.data, n, pad, Converter(t, t));
    ExportSameType(host, buf, depth, pad, n);
    var hb := HeaderBytes(TypeChar(n), buf.width, buf.height, MaxValue(depth));
    var raw := DataBytes(host, t.size, DefinedInts(flat).value);
    var file := hb + raw;
    assert Export(host, buf, t, depth, pad) == Ok(Some(file));
    FileHeader(hb, raw, TypeChar(n), buf.width, buf.height, MaxValue(depth));
    TypeCharRoundTrip(n);
    DepthOfMaxValue(depth);
    assert Import(host, file, result, blank, t, pad2) ==
           Ok(ReadPixels(host, raw, buf.width, buf.height, n, depth, result, blank, t, pad2));
    ReadPixelsRoundTrip(host, buf, depth, pad, n, result, blank, pad2);
  }

  /** The importer finds the exporter's header at the start of the file
      and the sample data right after it. */
  lemma FileHeader(hb: seq<Byte>, raw: seq<Byte>, typeChar: char, w: nat, h: nat, m: nat)
    requires typeChar as int < 256 && hb == HeaderBytes(typeChar, w, h, m)
    ensures ParseHeader(Text(hb + raw)) == Some(Header(typeChar, w, h, m, |hb|))
    ensures (hb + raw)[|hb|..] == raw
  {
    TextAppend(hb, raw);
    ParseHeaderText(typeChar, w, h, m, Text(raw));
  }

  /** The importer's reading, on a host of the exporter's byte order, of
      the data area the exporter wrote. */
  lemma ReadPixelsRoundTrip(host: Endian.Order, buf: Buffer2D.Buffer<Element<Sample>>, depth: BitDepth, pad: Sample,
                            n: nat, result: Buffer2D.Buffer<Element<Option<Sample>>>,
                            blank: Element<Option<Sample>>, pad2: Option<Sample>)
    requires Buffer2D.Valid(buf) && |buf.data| > 0
    requires n == Size(buf.data[0]) && Marshal.Uniform(buf.data, n)
    requires Size(blank) == n
    requires forall j, c :: 0 <= j < |buf.data| && 0 <= c < n ==> Fits(WordType(depth), Channels(buf.data[j])[c])
    requires ArrayFits(|buf.data| * n, WordType(depth).size) && SwapStops(host, |buf.data| * n, WordType(depth).size)
    ensures var t := WordType(depth);
            var flat := Marshal.PixelToFlat(buf.data, n, pad, Converter(t, t));
            DefinedInts(flat).Some? &&
            var raw := DataBytes(host, t.size, DefinedInts(flat).value);
            var r := ReadPixels(host, raw, buf.width, buf.height, n, depth, result, blank, t, pad2);
            r.Some? && HoldsPixels(r.value, buf, n)
  {
    var t := WordType(depth);
    var k := t.size;
    var flat := Marshal.PixelToFlat(buf.data, n, pad, Converter(t, t));
    FlatDefined(buf.data, n, pad, t);
    var raw := DataBytes(host, k, DefinedInts(flat).value);
    Codec.PositiveDims(buf);
    Buffer2D.EmptyIffNoElements(buf);
    var count := buf.width * buf.height * n;
    assert count == |buf.data| * n;
    var dst := Buffer2D.Resize(result, buf.width, buf.height, blank);
    Codec.ResizeShape(result, buf.width, buf.height, blank, n);
    ChannelsBack(host, buf.data, n, pad, depth, dst.data, pad2);
    ReadPixelsOk(host, raw, buf.width, buf.height, n, depth, result, blank, t, pad2);
  }

  /** `ReadPixels` when the array is allocated in full, the swap loop
      stops, the data area holds every sample and the resized buffer reads
      no further. */
  lemma ReadPixelsOk(host: Endian.Order, raw: seq<Byte>, w: nat, h: nat, n: nat, depth: BitDepth,
                     result: Buffer2D.Buffer<Element<Option<Sample>>>, blank: Element<Option<Sample>>,
                     t: SampleType, pad2: Option<Sample>)
    requires t == WordType(depth)
    requires ArrayFits(w * h * n, t.size) && SwapStops(host, w * h * n, t.size)
    requires |raw| == w * h * n * t.size
    requires Marshal.ReadsFit(Samples(host, raw, w * h * n, t.size), 0, n, Buffer2D.Resize(result, w, h, blank).data)
    ensures var dst := Buffer2D.Resize(result, w, h, blank);
            ReadPixels(host, raw, w, h, n, depth, result, blank, t, pad2) ==
              Some(dst.(data := Marshal.FlatToPixel(Samples(host, raw, w * h * n, t.size), 0, n, dst.data, pad2,
                                                    Converter(t, t))))
  {
  }

  /** Read into elements of n channels on the exporter's host, the samples
      the exporter wrote give every channel back, converted to the same
      type. */
  lemma ChannelsBack(host: Endian.Order, ps: seq<Element<Sample>>, n: nat, pad: Sample, depth: BitDepth,
                     dst: seq<Element<Option<Sample>>>, pad2: Option<Sample>)
    requires Marshal.Uniform(ps, n) && Marshal.Uniform(dst, n) && |dst| == |ps|
    requires forall j, c :: 0 <= j < |ps| && 0 <= c < n ==> Fits(WordType(depth), Channels(ps[j])[c])
    ensures var t := WordType(depth);
            var flat := Marshal.PixelToFlat(ps, n, pad, Converter(t, t));
            DefinedInts(flat).Some? &&
            var raw := DataBytes(host, t.size, DefinedInts(flat).value);
            |raw| == |ps| * n * t.size &&
            var words := Samples(host, raw, |ps| * n, t.size);
            Marshal.ReadsFit(words, 0, n, dst) &&
            var back := Marshal.FlatToPixel(words, 0, n, dst, pad2, Converter(t, t));
            Marshal.Uniform(back, n) &&
            forall j, c :: 0 <= j < |ps| && 0 <= c < n ==> Channels(back[j])[c] == Some(Channels(ps[j])[c])
  {
    var t := WordType(depth);
    var k := t.size;
    var flat := Marshal.PixelToFlat(ps, n, pad, Converter(t, t));
    WordsBack(host, ps, n, pad, depth);
    var raw := DataBytes(host, k, DefinedInts(flat).value);
    var words := Samples(host, raw, |ps| * n, k);
    assert Marshal.ReadsFit(words, 0, n, dst) by {
      Marshal.UniformReadsFit(words, 0, n, dst);
    }
    var back := Marshal.FlatToPixel(words, 0, n, dst, pad2, Converter(t, t));
    assert Marshal.Uniform(back, n) by {
      forall j | 0 <= j < |back|
        ensures Size(back[j]) == n
      {
        Marshal.FlatToPixelShape(words, 0, n, dst, pad2, Converter(t, t), j);
      }
    }
    forall j, c | 0 <= j < |ps| && 0 <= c < n
      ensures Channels(back[j])[c] == Some(Channels(ps[j])[c])
    {
      ChannelBack(ps, n, pad, t, words, dst, pad2, j, c);
    }
  }

  /** Channel c of element j read from words that repeat the flat array
      of the pixels is the pixel's own channel. */
  lemma ChannelBack(ps: seq<Element<Sample>>, n: nat, pad: Sample, t: SampleType, words: seq<Sample>,
                    dst: seq<Element<Option<Sample>>>, pad2: Option<Sample>, j: nat, c: nat)
    requires ValidType(t) && Marshal.Uniform(ps, n) && Marshal.Uniform(dst, n) && |dst| == |ps|
    requires forall j, c :: 0 <= j < |ps| && 0 <= c < n ==> Fits(t, Channels(ps[j])[c])
    requires var flat := Marshal.PixelToFlat(ps, n, pad, Converter(t, t));
             |words| == |flat| && forall i :: 0 <= i < |flat| ==> flat[i].Some? && words[i] == flat[i].value
    requires j < |ps| && c < n
    ensures Marshal.ReadsFit(words, 0, n, dst)
    ensures var back := Marshal.FlatToPixel(words, 0, n, dst, pad2, Converter(t, t));
            Size(back[j]) == n && Channels(back[j])[c] == Some(Channels(ps[j])[c])
  {
    var v := Channels(ps[j])[c];
    ConvertSameType(t, v);
    Marshal.ReadBackAt(ps, n, pad, Converter(t, t), words, dst, pad2, j, c);
  }

  /** The samples the exporter's host reads from the data area it wrote
      are the flat array it wrote them from. */
  lemma WordsBack(host: Endian.Order, ps: seq<Element<Sample>>, n: nat, pad: Sample, depth: BitDepth)
    requires Marshal.Uniform(ps, n)
    requires forall j, c :: 0 <= j < |ps| && 0 <= c < n ==> Fits(WordType(depth), Channels(ps[j])[c])
    ensures var t := WordType(depth);
            var flat := Marshal.PixelToFlat(ps, n, pad, Converter(t, t));
            DefinedInts(flat).Some? &&
            var raw := DataBytes(host, t.size, DefinedInts(flat).value);
            |raw| == |ps| * n * t.size &&
            var words := Samples(host, raw, |ps| * n, t.size);
            forall i :: 0 <= i < |flat| ==> flat[i].Some? && words[i] == flat[i].value
  {
    var t := WordType(depth);
    var k := t.size;
    var flat := Marshal.PixelToFlat(ps, n, pad, Converter(t, t));
    FlatDefined(ps, n, pad, t);
    var raw := DataBytes(host, k, DefinedInts(flat).value);
    var words := Samples(host, raw, |ps| * n, k);
    forall i | 0 <= i < |flat|
      ensures flat[i].Some? && words[i] == flat[i].value
    {
      WordReadBack(host, ps, n, pad, depth, i);
    }
  }

  /** Sample i of the data area reads back as flat value i. */
  lemma WordReadBack(host: Endian.Order, ps: seq<Element<Sample>>, n: nat, pad: Sample, depth: BitDepth, i: nat)
    requires Marshal.Uniform(ps, n) && i < |ps| * n
    requires forall j, c :: 0 <= j < |ps| && 0 <= c < n ==> Fits(WordType(depth), Channels(ps[j])[c])
    ensures var t := WordType(depth);
            var flat := Marshal.PixelToFlat(ps, n, pad, Converter(t, t));
            DefinedInts(flat).Some? &&
            var raw := DataBytes(host, t.size, DefinedInts(flat).value);
            |raw| == |ps| * n * t.size &&
            Samples(host, raw, |ps| * n, t.size)[i] == flat[i].value
  {
    var t := WordType(depth);
    var k := t.size;
    var flat := Marshal.PixelToFlat(ps, n, pad, Converter(t, t));
    FlatDefined(ps, n, pad, t);
    var ws := DefinedInts(flat).value;
    Codec.FlatSameTypeAt(ps, n, pad, t, i);
    SampleAt(host, ws, k, i);
    SampleRoundTrip(depth, i < BigPrefix(host, |ws|, k), flat[i].value);
  }

  /** Sample i of the bytes written from ws, read on the host that wrote
      them, is read from the bytes the swap left for ws[i]. */
  lemma SampleAt(host: Endian.Order, ws: seq<int>, k: nat, i: nat)
    requires k > 0 && i < |ws|
    ensures var big := i < BigPrefix(host, |ws|, k);
            Samples(host, DataBytes(host, k, ws), |ws|, k)[i] == IntSample(StoredValue(big, StoredBytes(k, big, ws[i])))
  {
    DataBytesAt(host, k, ws, i);
  }

  /** A file written on one host and read on a host of the other byte
      order does not give its 16-bit samples back once the swap leaves
      some of them unswapped: the grey samples 258 and 772 are read back
      on a big-endian host as 258 and 1027. */
  lemma CrossHostExample()
    ensures Samples(Endian.Big, DataBytes(Endian.Little, 2, [258, 772]), 2, 2) == [IntSample(258), IntSample(1027)]
  {
    PrefixSwapExample();
    Endian.IsLittleEndianCorrect(Endian.Big);
    var data: seq<Byte> := [1, 2, 4, 3];
    ExampleSlices(data);
    assert BigPrefix(Endian.Big, 2, 2) == 2;
    ExampleValues();
    var r := Samples(Endian.Big, data, 2, 2);
    assert r[0] == IntSample(WordValue([1, 2]));
    assert r[1] == IntSample(WordValue([4, 3]));
  }

  lemma ExampleSlices(data: seq<Byte>)
    requires data == [1, 2, 4, 3]
    ensures data[0..2] == [1, 2] && data[2..4] == [4, 3]
  {
    assert data[0..2] == [data[0], data[1]];
    assert data[2..4] == [data[2], data[3]];
  }

  /** The values of the bytes 01 02 and 04 03 read most significant byte
      first. */
  lemma ExampleValues()
    ensures WordValue([1, 2]) == 258 && WordValue([4, 3]) == 1027
  {
    assert Endian.Reverse([1 as Byte, 2]) == [2, 1] by {
      assert Endian.Reverse([2 as Byte]) == [2];
    }
    assert Endian.Reverse([4 as Byte, 3]) == [3, 4] by {
      assert Endian.Reverse([3 as Byte]) == [3];
    }
    assert Endian.DecodeLE([2, 1]) == 258 by {
      assert Endian.DecodeLE([1 as Byte]) == 1;
    }
    assert Endian.DecodeLE([3, 4]) == 1027 by {
      assert Endian.DecodeLE([4 as Byte]) == 4;
    }
  }
}
