/** `offset_iterator` and `const_offset_iterator`: an iterator over
    elements that dereferences to channel `offset` of the current element,
    so that one colour channel of an image can be walked on its own.

    The base iterator is a position in the element sequence; the const
    variant is the same pair with writes withdrawn.
 */
module OffsetIterator {
  import opened ChannelView

  datatype OffsetIter = OffsetIter(base: int, offset: int, readOnly: bool)

  /** `increment`: only the base moves. */
  function Increment(it: OffsetIter): (r: OffsetIter)
    ensures r.base == it.base + 1 && r.offset == it.offset && r.readOnly == it.readOnly
  {
    it.(base := it.base + 1)
  }

  /** `decrement`: only the base moves. */
  function Decrement(it: OffsetIter): (r: OffsetIter)
    ensures r.base == it.base - 1 && r.offset == it.offset && r.readOnly == it.readOnly
  {
    it.(base := it.base - 1)
  }

  /** `advance(n)`: only the base moves, by n. */
  function Advance(it: OffsetIter, n: int): (r: OffsetIter)
    ensures r.base == it.base + n && r.offset == it.offset && r.readOnly == it.readOnly
  {
    it.(base := it.base + n)
  }

  /** `equal`: same base position and same offset, whichever variant. */
  predicate Equal(a: OffsetIter, b: OffsetIter)
  {
    a.base == b.base && a.offset == b.offset
  }

  /** `distance_to`: the distance of the base iterators; the offsets play
      no part. */
  function DistanceTo(a: OffsetIter, b: OffsetIter): int
  {
    b.base - a.base
  }

  /** The conversion to `const_offset_iterator`. */
  function ToConst(it: OffsetIter): (r: OffsetIter)
    ensures r.readOnly && Equal(r, it)
  {
    it.(readOnly := true)
  }

  /** The conversion to the base iterator drops the offset. */
  function ToBase(it: OffsetIter): int
  {
    it.base
  }

  /** The iterator points at an element whose channel `offset` exists.
      `(*base)[offset]` needs an element type with `operator[]`, so a
      scalar element does not compile and is excluded. */
  predicate Dereferenceable<V>(elems: seq<Element<V>>, it: OffsetIter)
  {
    0 <= it.base < |elems| && elems[it.base].Aggregate? && IndexOk(elems[it.base], it.offset)
  }

  /** `dereference`: (*base)[offset]. */
  function Deref<V>(elems: seq<Element<V>>, it: OffsetIter): V
    requires Dereferenceable(elems, it)
  {
    Channel(elems[it.base], it.offset)
  }

  /** Assignment through a mutable offset iterator: the iterator then
      reads v, and every other channel of every element is unchanged. */
  function Store<V>(elems: seq<Element<V>>, it: OffsetIter, v: V): (r: seq<Element<V>>)
    requires Dereferenceable(elems, it) && !it.readOnly
    ensures |r| == |elems|
    ensures Dereferenceable(r, it) && Deref(r, it) == v
    ensures forall j :: 0 <= j < |elems| && j != it.base ==> r[j] == elems[j]
    ensures Size(r[it.base]) == Size(elems[it.base])
    ensures forall c :: 0 <= c < Size(elems[it.base]) && c != it.offset ==>
              Channel(r[it.base], c) == Channel(elems[it.base], c)
  {
    elems[it.base := SetChannel(elems[it.base], it.offset, v)]
  }

  /** Moving n steps and then back returns to an equal iterator whose
      distance from the start was n. */
  lemma AdvanceRoundTrip(it: OffsetIter, n: int)
    ensures Advance(Advance(it, n), -n) == it
    ensures DistanceTo(it, Advance(it, n)) == n
    ensures Decrement(Increment(it)) == it
  {
  }

  /** Two iterators are equal iff their base iterators are equal and they
      read the same channel. */
  lemma EqualIff(a: OffsetIter, b: OffsetIter)
    ensures Equal(a, b) <==> ToBase(a) == ToBase(b) && a.offset == b.offset
    ensures Equal(a, ToConst(a)) && ToBase(ToConst(a)) == ToBase(a)
    ensures !Equal(a, b) ==> DistanceTo(a, b) != 0 || a.offset != b.offset
  {
  }

  /** Walking an offset iterator from the first to the last element reads
      channel c of every element, in order. */
  method ReadChannel<V>(elems: seq<Element<V>>, c: int) returns (column: seq<V>)
    requires forall i :: 0 <= i < |elems| ==> elems[i].Aggregate? && 0 <= c < Size(elems[i])
    ensures |column| == |elems|
    ensures forall i :: 0 <= i < |elems| ==> column[i] == Channel(elems[i], c)
  {
    var it := OffsetIter(0, c, true);
    var end := OffsetIter(|elems|, c, true);
    column := [];
    while !Equal(it, end)
      invariant 0 <= it.base <= |elems| && it.offset == c
      invariant |column| == it.base
      invariant forall i :: 0 <= i < it.base ==> column[i] == Channel(elems[i], c)
      decreases |elems| - it.base
    {
      column := column + [Deref(elems, it)];
      it := Increment(it);
    }
  }

  /** Writing channel c of every element through a mutable offset
      iterator changes that channel and leaves all others as they were. */
  method WriteChannel<V>(elems: seq<Element<V>>, c: nat, values: seq<V>) returns (r: seq<Element<V>>)
    requires |values| == |elems|
    requires forall i :: 0 <= i < |elems| ==> elems[i].Aggregate? && c < Size(elems[i])
    ensures |r| == |elems|
    ensures forall i :: 0 <= i < |r| ==> Size(r[i]) == Size(elems[i]) && (r[i].Aggregate? <==> elems[i].Aggregate?)
    ensures forall i :: 0 <= i < |r| ==> Channel(r[i], c) == values[i]
    ensures forall i, j :: 0 <= i < |r| && 0 <= j < Size(elems[i]) && j != c && elems[i].Aggregate? ==>
              Channel(r[i], j) == Channel(elems[i], j)
  {
    var it := OffsetIter(0, c, false);
    r := elems;
    while it.base < |elems|
      invariant 0 <= it.base <= |elems| && it.offset == c && !it.readOnly
      invariant |r| == |elems|
      invariant forall i :: 0 <= i < |r| ==> Size(r[i]) == Size(elems[i]) && (r[i].Aggregate? <==> elems[i].Aggregate?)
      invariant forall i :: 0 <= i < it.base ==> Channel(r[i], c) == values[i]
      invariant forall i :: it.base <= i < |r| ==> r[i] == elems[i]
      invariant forall i, j :: 0 <= i < |r| && 0 <= j < Size(elems[i]) && j != c && elems[i].Aggregate? ==>
                  Channel(r[i], j) == Channel(elems[i], j)
      decreases |elems| - it.base
    {
      r := Store(r, it, values[it.base]);
      it := Increment(it);
    }
  }
}
