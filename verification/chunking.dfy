/**
 * Fixed-size batching, the behaviour the Log Analytics sink expects of the
 * `ChunkBy` extension it calls: consecutive slices of `size` elements, the
 * last one possibly shorter, nothing lost, nothing reordered.
 */
module Chunking {
  import opened Arithmetic

  /** The chunks laid end to end. */
  function Flatten<T>(cs: seq<seq<T>>): seq<T>
  {
    if |cs| == 0 then [] else cs[0] + Flatten(cs[1..])
  }

  lemma {:induction false} FlattenAppend<T>(a: seq<seq<T>>, b: seq<seq<T>>)
    ensures Flatten(a + b) == Flatten(a) + Flatten(b)
  {
    if |a| == 0 {
      assert a + b == b;
    } else {
      assert (a + b)[1..] == a[1..] + b;
      FlattenAppend(a[1..], b);
    }
  }

  function Chunk<T>(xs: seq<T>, size: nat): (cs: seq<seq<T>>)
    requires size > 0
    ensures Flatten(cs) == xs
    ensures forall i :: 0 <= i < |cs| ==> 0 < |cs[i]| <= size
    ensures forall i :: 0 <= i < |cs| - 1 ==> |cs[i]| == size
    ensures |cs| == 0 <==> |xs| == 0
    decreases |xs|
  {
    if |xs| == 0 then []
    else if |xs| <= size then
      assert Flatten([xs]) == xs + Flatten([xs][1..]);
      [xs]
    else
      var rest := Chunk(xs[size..], size);
      assert ([xs[..size]] + rest)[1..] == rest;
      [xs[..size]] + rest
  }

  /** The number of chunks is the length divided by the size, rounded up. */
  lemma {:induction false} ChunkCount<T>(xs: seq<T>, size: nat)
    requires size > 0
    ensures |Chunk(xs, size)| == (|xs| + size - 1) / size
    decreases |xs|
  {
    if |xs| > size {
      ChunkCount(xs[size..], size);
      DivShift(|xs| - 1, size);
      assert |xs| - 1 == (|xs| - size) + size - 1;
    } else if |xs| > 0 {
      DivUnique(|xs| + size - 1, size, 1, |xs| - 1);
    } else {
      assert (size - 1) / size == 0;
    }
  }

}
