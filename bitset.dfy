/** The growable bitset the sieve keeps its candidate flags in, modelled on its
    value: a sequence of bits whose length is the bitset's length. Setting a bit past
    the end grows the bitset, and the positions added in between start cleared;
    testing or clearing past the end reads false or does nothing. */
module Bitset {

  /** Whether bit i is set; bits at or past the length read as cleared. */
  predicate Test(b: seq<bool>, i: int): (r: bool)
    ensures i < 0 || i >= |b| ==> !r
    ensures 0 <= i < |b| ==> (r <==> b[i])
  {
    0 <= i < |b| && b[i]
  }

  /** A bitset of the given length with every bit cleared. */
  function New(length: nat): (b: seq<bool>)
    ensures |b| == length
    ensures forall k :: !Test(b, k)
  {
    seq(length, _ => false)
  }

  /** Every bit below the length set; the length does not change. */
  function SetAll(b: seq<bool>): (r: seq<bool>)
    ensures |r| == |b|
    ensures forall k :: Test(r, k) <==> 0 <= k < |b|
  {
    seq(|b|, _ => true)
  }

  /** Bit i set. A bitset shorter than i + 1 is first grown to length i + 1, and
      the positions it gains other than i stay cleared. */
  function Set(b: seq<bool>, i: nat): (r: seq<bool>)
    ensures |r| == if i < |b| then |b| else i + 1
    ensures forall k :: Test(r, k) <==> k == i || Test(b, k)
    ensures forall k :: 0 <= k < |b| && k != i ==> r[k] == b[k]
  {
    if i < |b| then b[i := true] else b + New(i - |b|) + [true]
  }

  /** Bit i cleared; an index at or past the length leaves the bitset as it is. */
  function Clear(b: seq<bool>, i: nat): (r: seq<bool>)
    ensures |r| == |b|
    ensures forall k :: Test(r, k) <==> k != i && Test(b, k)
    ensures i >= |b| ==> r == b
  {
    if i < |b| then b[i := false] else b
  }
}
