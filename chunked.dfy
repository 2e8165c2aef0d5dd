/**
 * `Array.chunked(into:)`: cutting a sequence into consecutive slices of a
 * fixed size, the last one possibly shorter.
 */
module Chunked {

  /** The concatenation of a sequence of slices. */
  function Flatten<T>(chunks: seq<seq<T>>): seq<T> {
    if chunks == [] then [] else chunks[0] + Flatten(chunks[1..])
  }

  lemma {:induction false} FlattenAppend<T>(a: seq<seq<T>>, b: seq<seq<T>>)
    ensures Flatten(a + b) == Flatten(a) + Flatten(b)
    decreases |a|
  {
    if a == [] {
      assert a + b == b;
    } else {
      assert (a + b)[0] == a[0];
      assert (a + b)[1..] == a[1..] + b;
      FlattenAppend(a[1..], b);
    }
  }

  /**
   * The slices of `a` of length `size`, front to back, the last one holding
   * what is left over.
   */
  function Chunks<T>(a: seq<T>, size: nat): seq<seq<T>>
    requires size > 0
    decreases |a|
  {
    if a == [] then []
    else if |a| <= size then [a]
    else [a[..size]] + Chunks(a[size..], size)
  }

  /** Cutting the first slice off and chunking the rest is chunking the whole. */
  lemma ChunksStep<T>(a: seq<T>, size: nat, index: nat)
    requires size > 0 && index < |a|
    ensures index + size < |a| ==>
              Chunks(a[index..], size) == [a[index..index + size]] + Chunks(a[index + size..], size)
    ensures index + size >= |a| ==> Chunks(a[index..], size) == [a[index..]]
  {
    if index + size < |a| {
      assert a[index..][size..] == a[index + size..];
      assert a[index..][..size] == a[index..index + size];
    }
  }

  /**
   * `chunked(into:)`: a single slice holding everything when the size is not
   * positive, even for an empty sequence; otherwise the slices taken in a
   * loop that advances `size` elements at a time, clamped at the end.
   */
  method Chunked<T>(a: seq<T>, size: int) returns (result: seq<seq<T>>)
    ensures size <= 0 ==> result == [a]
    ensures size > 0 ==> result == Chunks(a, size)
  {
    if size <= 0 {
      return [a];
    }
    result := [];
    var index := 0;
    while index < |a|
      invariant 0 <= index <= |a|
      invariant result + Chunks(a[index..], size) == Chunks(a, size)
      decreases |a| - index
    {
      var nextIndex := if index + size <= |a| then index + size else |a|;
      ChunksStep(a, size, index);
      var chunk := a[index..nextIndex];
      assert Chunks(a[index..], size) == [chunk] + Chunks(a[nextIndex..], size) by {
        if nextIndex == |a| {
          assert a[nextIndex..] == [] && chunk == a[index..];
        }
      }
      assert result + [chunk] + Chunks(a[nextIndex..], size) == result + ([chunk] + Chunks(a[nextIndex..], size));
      result := result + [chunk];
      index := nextIndex;
    }
    assert a[index..] == [];
  }

  /**
   * For a positive size, the chunks give the sequence back in order, each is
   * non-empty and at most `size` long, all but the last are exactly `size`
   * long, and there are ceil(n / size) of them (none for an empty sequence):
   * the one count whose slices of length `size` hold the `n` elements with
   * less than one slice to spare.
   */
  lemma ChunksPartition<T>(a: seq<T>, size: nat)
    requires size > 0
    ensures Flatten(Chunks(a, size)) == a
    ensures |a| <= |Chunks(a, size)| * size < |a| + size
    ensures a == [] <==> Chunks(a, size) == []
    ensures forall j :: 0 <= j < |Chunks(a, size)| ==> 0 < |Chunks(a, size)[j]| <= size
    ensures forall j :: 0 <= j < |Chunks(a, size)| - 1 ==> |Chunks(a, size)[j]| == size
  {
    ChunksFlatten(a, size);
    ChunksCount(a, size);
    ChunksSizes(a, size);
  }

  /** The chunks give the sequence back in order. */
  lemma {:induction false} ChunksFlatten<T>(a: seq<T>, size: nat)
    requires size > 0
    ensures Flatten(Chunks(a, size)) == a
    decreases |a|
  {
    if |a| > size {
      var rest := Chunks(a[size..], size);
      ChunksFlatten(a[size..], size);
      assert Chunks(a, size) == [a[..size]] + rest;
      assert ([a[..size]] + rest)[1..] == rest;
      assert a[..size] + a[size..] == a;
    }
  }

  /** There are ceil(n / size) chunks, none for an empty sequence. */
  lemma {:induction false} ChunksCount<T>(a: seq<T>, size: nat)
    requires size > 0
    ensures |a| <= |Chunks(a, size)| * size < |a| + size
    ensures a == [] <==> Chunks(a, size) == []
    decreases |a|
  {
    if |a| > size {
      var rest := Chunks(a[size..], size);
      ChunksCount(a[size..], size);
      assert |Chunks(a, size)| == |rest| + 1;
      assert (|rest| + 1) * size == |rest| * size + size;
    }
  }

  /** Every chunk is non-empty and at most `size` long; all but the last are exactly `size` long. */
  lemma {:induction false} ChunksSizes<T>(a: seq<T>, size: nat)
    requires size > 0
    ensures forall j :: 0 <= j < |Chunks(a, size)| ==> 0 < |Chunks(a, size)[j]| <= size
    ensures forall j :: 0 <= j < |Chunks(a, size)| - 1 ==> |Chunks(a, size)[j]| == size
    decreases |a|
  {
    if |a| > size {
      var rest := Chunks(a[size..], size);
      ChunksSizes(a[size..], size);
      var all := Chunks(a, size);
      assert all == [a[..size]] + rest;
      forall j | 0 < j < |all| ensures all[j] == rest[j - 1] {
      }
    }
  }

  /** Chunk `j` is the slice of `a` starting at `j * size`. */
  lemma {:induction false} ChunkAt<T>(a: seq<T>, size: nat, j: nat)
    requires size > 0 && j < |Chunks(a, size)|
    ensures j * size < |a|
    ensures Chunks(a, size)[j] ==
              a[j * size..if (j + 1) * size <= |a| then (j + 1) * size else |a|]
    decreases |a|
  {
    if j > 0 {
      var rest := a[size..];
      assert Chunks(a, size) == [a[..size]] + Chunks(rest, size);
      ChunkAt(rest, size, j - 1);
      var lo := (j - 1) * size;
      assert lo + size == j * size;
      assert j * size + size == (j + 1) * size;
      var hi := if j * size <= |rest| then j * size else |rest|;
      assert rest[lo..hi] == a[lo + size..hi + size];
    }
  }
}
