/** `iteratorWrapper<T>`: one stored element seen as an ordered run of
    channel values.

    The C++ picks a specialisation at compile time: a fundamental type is
    one channel (the value itself), any other type is iterated with its own
    `begin()`/`end()`. Here the choice is the constructor of `Element`.
    The const aggregate specialisation reads exactly like the mutable one
    and simply offers no write, so it needs no separate definition.
 */
module ChannelView {

  /** A pixel element: a fundamental value, or an aggregate whose channels
      are listed in its own iteration order. */
  datatype Element<V> = Scalar(value: V) | Aggregate(fields: seq<V>)

  /** The channels between `begin()` and `end()`. */
  function Channels<V>(e: Element<V>): (cs: seq<V>)
    ensures e.Scalar? ==> |cs| == 1
    ensures e.Aggregate? ==> |cs| == |e.fields|
  {
    match e
    case Scalar(v) => [v]
    case Aggregate(fs) => fs
  }

  /** `size()`: 1 for a fundamental type, `distance(begin, end)` otherwise. */
  function Size<V>(e: Element<V>): nat
  {
    |Channels(e)|
  }

  /** The indices `operator[]` accepts: every index for a fundamental
      type (it ignores the index), the channel range for an aggregate. */
  predicate IndexOk<V>(e: Element<V>, idx: int)
  {
    e.Scalar? || 0 <= idx < Size(e)
  }

  /** `operator[](idx)`. */
  function Channel<V>(e: Element<V>, idx: int): V
    requires IndexOk(e, idx)
  {
    match e
    case Scalar(v) => v
    case Aggregate(fs) => fs[idx]
  }

  /** Assignment through the reference `operator[](idx)` returns: the
      wrapper holds a reference, so the wrapped element changes. */
  function SetChannel<V>(e: Element<V>, idx: int, v: V): (r: Element<V>)
    requires IndexOk(e, idx)
    ensures Size(r) == Size(e)
    ensures r.Scalar? <==> e.Scalar?
  {
    match e
    case Scalar(_) => Scalar(v)
    case Aggregate(fs) => Aggregate(fs[idx := v])
  }

  /** Writing the channel iterator from `begin()` to `end()` with the
      values cs, one per channel. */
  function WithChannels<V>(e: Element<V>, cs: seq<V>): (r: Element<V>)
    requires |cs| == Size(e)
    ensures r.Scalar? <==> e.Scalar?
  {
    match e
    case Scalar(_) => Scalar(cs[0])
    case Aggregate(_) => Aggregate(cs)
  }

  /** A fundamental value is a single channel holding the value, and
      `operator[]` returns it whatever the index. */
  lemma ScalarView<V>(v: V, idx: int)
    ensures Size(Scalar(v)) == 1
    ensures Channels(Scalar(v)) == [v]
    ensures Channel(Scalar(v), idx) == v
  {
  }

  /** `operator[](i)` is the i-th channel of the iteration. */
  lemma IndexIsIteration<V>(e: Element<V>, i: nat)
    requires i < Size(e)
    ensures IndexOk(e, i) && Channel(e, i) == Channels(e)[i]
  {
  }

  /** A write through the wrapper is seen by a later read of the same
      channel and by no other channel. */
  lemma ReadAfterWrite<V>(e: Element<V>, i: nat, j: nat, v: V)
    requires i < Size(e) && j < Size(e)
    ensures IndexOk(e, i) && IndexOk(e, j)
    ensures Channel(SetChannel(e, i, v), j) == if i == j || e.Scalar? then v else Channel(e, j)
  {
  }

  /** Writing back the channels just read leaves the element unchanged,
      and the channels written are the channels read afterwards. */
  lemma WithChannelsRoundTrip<V>(e: Element<V>, cs: seq<V>)
    requires |cs| == Size(e)
    ensures WithChannels(e, Channels(e)) == e
    ensures Channels(WithChannels(e, cs)) == cs
  {
  }
}
