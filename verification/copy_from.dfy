/** `copyFrom(input, first, last)`: like `std::copy`, except that the
    destination range [first, last) decides how many elements flow.
 */
module CopyFrom {

  /** Copies input[0 .. last-first) into dest[first .. last); returns the
      updated destination and how many input elements were read. */
  method CopyFrom<T>(input: seq<T>, dest: seq<T>, first: nat, last: nat) returns (r: seq<T>, consumed: nat)
    requires first <= last <= |dest|
    requires |input| >= last - first
    ensures |r| == |dest|
    ensures consumed == last - first
    ensures forall i :: 0 <= i < last - first ==> r[first + i] == input[i]
    ensures forall j :: 0 <= j < |dest| && !(first <= j < last) ==> r[j] == dest[j]
  {
    r := dest;
    consumed := 0;
    var pos := first;
    while pos != last
      invariant first <= pos <= last
      invariant consumed == pos - first
      invariant |r| == |dest|
      invariant forall i :: 0 <= i < consumed ==> r[first + i] == input[i]
      invariant forall j :: 0 <= j < |dest| && !(first <= j < pos) ==> r[j] == dest[j]
      decreases last - pos
    {
      r := r[pos := input[consumed]];
      pos := pos + 1;
      consumed := consumed + 1;
    }
  }

  /** An empty destination range writes nothing and reads nothing. */
  method CopyFromEmptyRange<T>(input: seq<T>, dest: seq<T>, first: nat) returns (r: seq<T>, consumed: nat)
    requires first <= |dest|
    ensures r == dest && consumed == 0
  {
    r, consumed := CopyFrom(input, dest, first, first);
    assert r == dest;
  }
}
