/** Byte order: the host test through a two-byte magic number, the byte
    reversal `swapOrder`, and `little`/`big`, which convert between the
    host representation and a fixed file byte order.

    A value of a type of n bytes is represented by its n bytes as they lie
    in memory; the host's byte order is a parameter.
 */
module Endian {
  import opened Numeric

  datatype Order = Little | Big

  /** The n-byte little-endian encoding of v: least significant byte first. */
  function EncodeLE(n: nat, v: nat): (r: seq<Byte>)
    ensures |r| == n
  {
    if n == 0 then [] else [v % 256] + EncodeLE(n - 1, v / 256)
  }

  /** The value of little-endian bytes. */
  function DecodeLE(bs: seq<Byte>): (v: nat)
    ensures v < Pow2(8 * |bs|)
  {
    if |bs| == 0 then 0
    else
      var rest := DecodeLE(bs[1..]);
      assert Pow2(8 * |bs|) == 256 * Pow2(8 * (|bs| - 1)) by {
        Pow2Add(8, 8 * (|bs| - 1));
        assert Pow2(8) == 256;
      }
      bs[0] + 256 * rest
  }

  /** The bytes in the opposite order. */
  function Reverse<T>(s: seq<T>): (r: seq<T>)
    ensures |r| == |s|
  {
    if |s| == 0 then [] else Reverse(s[1..]) + [s[0]]
  }

  lemma {:induction false} ReverseAt<T>(s: seq<T>, i: nat)
    requires i < |s|
    ensures Reverse(s)[i] == s[|s| - 1 - i]
  {
    if i < |s| - 1 {
      ReverseAt(s[1..], i);
    }
  }

  /** The representation in memory of the n-byte value v on a host. */
  function HostBytes(host: Order, n: nat, v: nat): (r: seq<Byte>)
    ensures |r| == n
  {
    if host == Little then EncodeLE(n, v) else Reverse(EncodeLE(n, v))
  }

  /** The value a host reads from the n bytes in memory. */
  function HostValue(host: Order, bs: seq<Byte>): nat
  {
    if host == Little then DecodeLE(bs) else DecodeLE(Reverse(bs))
  }

  /** `_magicNumber`: the bytes 1, 0. */
  const MagicNumber: seq<Byte> := [1, 0]

  /** `_isLittleEndian`: the magic number read as a short equals 1. */
  function IsLittleEndian(host: Order): bool
  {
    HostValue(host, MagicNumber) == 1
  }

  function IsBigEndian(host: Order): bool
  {
    !IsLittleEndian(host)
  }

  /** The magic-number test recognises the host's byte order. */
  lemma IsLittleEndianCorrect(host: Order)
    ensures IsLittleEndian(host) <==> host == Little
    ensures IsBigEndian(host) <==> host == Big
  {
    assert MagicNumber[1..] == [0];
    assert Reverse(MagicNumber) == [0, 1] by {
      assert Reverse([0 as Byte]) == [0];
    }
    assert [0, 1][1..] == [1 as Byte];
  }

  /** `swapOrder`: the result is filled front to back from a cursor that
      walks the value back to front. */
  method SwapOrder(value: seq<Byte>) returns (result: seq<Byte>)
    ensures |result| == |value|
    ensures forall i :: 0 <= i < |value| ==> result[i] == value[|value| - 1 - i]
    ensures result == Reverse(value)
  {
    result := [];
    var valueItr := |value| - 1;
    while |result| != |value|
      invariant |result| <= |value| && valueItr == |value| - 1 - |result|
      invariant forall i :: 0 <= i < |result| ==> result[i] == value[|value| - 1 - i]
      decreases |value| - |result|
    {
      result := result + [value[valueItr]];
      valueItr := valueItr - 1;
    }
    ReverseAll(value);
  }

  /** Every byte of the reversal, by position. */
  lemma ReverseAll<T>(s: seq<T>)
    ensures |Reverse(s)| == |s|
    ensures forall i :: 0 <= i < |s| ==> Reverse(s)[i] == s[|s| - 1 - i]
  {
    forall i | 0 <= i < |s| {
      ReverseAt(s, i);
    }
  }

  /** `little(value)`: host representation to little-endian bytes and
      back; the identity on a little-endian host. */
  function ToLittle(host: Order, bs: seq<Byte>): (r: seq<Byte>)
    ensures |r| == |bs|
    ensures IsLittleEndian(host) ==> r == bs
    ensures !IsLittleEndian(host) ==> forall i :: 0 <= i < |bs| ==> r[i] == bs[|bs| - 1 - i]
  {
    ReverseAll(bs);
    if IsLittleEndian(host) then bs else Reverse(bs)
  }

  /** `big(value)`: host representation to big-endian bytes and back; the
      identity on a big-endian host. */
  function ToBig(host: Order, bs: seq<Byte>): (r: seq<Byte>)
    ensures |r| == |bs|
    ensures IsBigEndian(host) ==> r == bs
    ensures !IsBigEndian(host) ==> forall i :: 0 <= i < |bs| ==> r[i] == bs[|bs| - 1 - i]
  {
    ReverseAll(bs);
    if IsBigEndian(host) then bs else Reverse(bs)
  }

  /** The range forms of `little` and `big`: every element in place. */
  function ToLittleAll(host: Order, words: seq<seq<Byte>>): (r: seq<seq<Byte>>)
    ensures |r| == |words|
    ensures forall i :: 0 <= i < |words| ==> r[i] == ToLittle(host, words[i])
  {
    seq(|words|, i requires 0 <= i < |words| => ToLittle(host, words[i]))
  }

  function ToBigAll(host: Order, words: seq<seq<Byte>>): (r: seq<seq<Byte>>)
    ensures |r| == |words|
    ensures forall i :: 0 <= i < |words| ==> r[i] == ToBig(host, words[i])
  {
    seq(|words|, i requires 0 <= i < |words| => ToBig(host, words[i]))
  }

  lemma {:induction false} ReverseReverse<T>(s: seq<T>)
    ensures Reverse(Reverse(s)) == s
  {
    forall i | 0 <= i < |s|
      ensures Reverse(Reverse(s))[i] == s[i]
    {
      ReverseAt(Reverse(s), i);
      ReverseAt(s, |s| - 1 - i);
    }
  }

  /** Swapping twice is the identity, so `little` and `big` undo themselves. */
  lemma SwapInvolution(host: Order, bs: seq<Byte>)
    ensures ToLittle(host, ToLittle(host, bs)) == bs
    ensures ToBig(host, ToBig(host, bs)) == bs
  {
    ReverseReverse(bs);
  }

  /** Little-endian encoding followed by decoding is the identity. */
  lemma {:induction false} DecodeEncodeLE(n: nat, v: nat)
    requires v < Pow2(8 * n)
    ensures DecodeLE(EncodeLE(n, v)) == v
  {
    if n > 0 {
      Pow2Add(8, 8 * (n - 1));
      assert Pow2(8) == 256;
      assert v / 256 < Pow2(8 * (n - 1));
      DecodeEncodeLE(n - 1, v / 256);
      assert EncodeLE(n, v)[1..] == EncodeLE(n - 1, v / 256);
    }
  }

  /** Whatever the host, `little` turns the in-memory value into its
      little-endian bytes and `big` into its big-endian bytes: the bytes a
      file receives do not depend on the machine. */
  lemma FileBytesHostIndependent(host: Order, n: nat, v: nat)
    ensures ToLittle(host, HostBytes(host, n, v)) == EncodeLE(n, v)
    ensures ToBig(host, HostBytes(host, n, v)) == Reverse(EncodeLE(n, v))
  {
    IsLittleEndianCorrect(host);
    ReverseReverse(EncodeLE(n, v));
  }

  /** Reading a file's little-endian (big-endian) bytes through `little`
      (`big`) gives the host the value the bytes encode. */
  lemma ReadFileBytes(host: Order, bs: seq<Byte>)
    ensures HostValue(host, ToLittle(host, bs)) == DecodeLE(bs)
    ensures HostValue(host, ToBig(host, bs)) == DecodeLE(Reverse(bs))
  {
    IsLittleEndianCorrect(host);
    ReverseReverse(bs);
  }
}
