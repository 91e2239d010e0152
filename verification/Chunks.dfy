/** chunk: splitting a list into batches. */
module Chunks {
  import opened Arithmetic

  // arr.slice(from, from + size): an end below zero counts from the end of the list
  function Slice<T>(arr: seq<T>, from: nat, size: int): seq<T>
    requires from <= |arr|
  {
    var end := if from + size < 0 then |arr| + from + size else from + size;
    if end <= from then [] else if end <= |arr| then arr[from..end] else arr[from..]
  }

  // !(index % chunkSize), which is also true for a chunk size of zero, where the remainder is NaN
  predicate Starts(index: nat, chunkSize: int) {
    chunkSize == 0 || index % chunkSize == 0
  }

  // The reduce from position `index` on, with the chunks collected so far.
  function ChunkFrom<T>(arr: seq<T>, chunkSize: int, index: nat, collected: seq<seq<T>>): seq<seq<T>>
    requires index <= |arr|
    decreases |arr| - index
  {
    if index == |arr| then
      collected
    else
      ChunkFrom(arr, chunkSize, index + 1,
                if Starts(index, chunkSize) then collected + [Slice(arr, index, chunkSize)] else collected)
  }

  function Chunk<T>(arr: seq<T>, chunkSize: int): seq<seq<T>> {
    ChunkFrom(arr, chunkSize, 0, [])
  }

  function Flatten<T>(parts: seq<seq<T>>): seq<T> {
    if parts == [] then [] else Flatten(parts[..|parts| - 1]) + parts[|parts| - 1]
  }

  // The number of chunks begun before position n.
  function Ceiling(n: nat, size: nat): nat
    requires size > 0
  {
    QuotientNonnegative(n + size - 1, size);
    (n + size - 1) / size
  }

  ghost predicate AreChunks<T>(arr: seq<T>, size: nat, n: nat, parts: seq<seq<T>>)
    requires size > 0 && n <= |arr|
  {
    && |parts| == Ceiling(n, size)
    && forall k :: 0 <= k < |parts| ==> 0 <= k * size < |arr| && parts[k] == Slice(arr, k * size, size)
  }

  lemma CeilingStep(n: nat, size: nat)
    requires size > 0
    ensures Ceiling(n + 1, size) == Ceiling(n, size) + if n % size == 0 then 1 else 0
    ensures n % size == 0 ==> Ceiling(n, size) * size == n
  {
    QuotientBounds(n, size);
    CeilingIs(n, size, n / size, n % size);
  }

  lemma CeilingIs(n: nat, size: nat, q: int, r: int)
    requires size > 0 && 0 <= r < size && n == q * size + r
    ensures (n + size - 1) / size == q + if r == 0 then 0 else 1
    ensures (n + size) / size == q + 1
  {
    MulSuccessor(q, size);
    QuotientUnique(n + size - 1, size, if r == 0 then q else q + 1);
    QuotientUnique(n + size, size, q + 1);
  }

  lemma {:induction false} ChunkFromContinues<T>(arr: seq<T>, size: nat, index: nat, collected: seq<seq<T>>)
    requires size > 0 && index <= |arr|
    requires AreChunks(arr, size, index, collected)
    ensures AreChunks(arr, size, |arr|, ChunkFrom(arr, size, index, collected))
    decreases |arr| - index
  {
    if index < |arr| {
      CeilingStep(index, size);
      ChunkFromContinues(arr, size, index + 1,
                         if Starts(index, size) then collected + [Slice(arr, index, size)] else collected);
    }
  }

  /** There are as many chunks as the ceiling of the quotient, and the k-th is the slice at k times the size. */
  lemma ChunksAreSlices<T>(arr: seq<T>, size: nat)
    requires size > 0
    ensures AreChunks(arr, size, |arr|, Chunk(arr, size))
  {
    QuotientUnique(size - 1, size, 0);
    ChunkFromContinues(arr, size, 0, []);
  }

  /** Every chunk but the last is full, and the last is not empty. */
  lemma ChunkSizes<T>(arr: seq<T>, size: nat, k: nat)
    requires size > 0 && k < |Chunk(arr, size)|
    ensures |Chunk(arr, size)[k]| == (if k < |Chunk(arr, size)| - 1 then size else |arr| - k * size)
    ensures 0 < |Chunk(arr, size)[k]| <= size
  {
    ChunksAreSlices(arr, size);
    var m := |Chunk(arr, size)|;
    QuotientBounds(|arr| + size - 1, size);
    MulSuccessor(k, size);
    MulOrder(k + 1, m, size);
    if k < m - 1 {
      MulOrder(k + 2, m, size);
      MulSuccessor(k + 1, size);
    }
  }

  lemma {:induction false} SlicesFlatten<T>(arr: seq<T>, size: nat, parts: seq<seq<T>>)
    requires size > 0
    requires forall k :: 0 <= k < |parts| ==> 0 <= k * size < |arr| && parts[k] == Slice(arr, k * size, size)
    ensures Flatten(parts) == arr[..if |parts| * size < |arr| then |parts| * size else |arr|]
  {
    if parts != [] {
      var n := |parts| - 1;
      SlicesFlatten(arr, size, parts[..n]);
      SliceExtends(arr, n * size, size);
      assert parts[n] == Slice(arr, n * size, size);
      MulSuccessor(n, size);
    }
  }

  lemma SliceExtends<T>(arr: seq<T>, from: nat, size: nat)
    requires from < |arr|
    ensures arr[..from] + Slice(arr, from, size) == arr[..if from + size < |arr| then from + size else |arr|]
  {
  }

  // What a size of zero or less leaves of a list: a slice from its start to as far from its end.
  function Kept<T>(arr: seq<T>, size: int): seq<T> {
    if size < 0 < |arr| + size then arr[..|arr| + size] else []
  }

  // Past the first position every slice of such a size ends before it begins.
  lemma {:induction false} UnsizedChunks<T>(arr: seq<T>, size: int, index: nat, collected: seq<seq<T>>)
    requires size <= 0 && index <= |arr|
    requires Flatten(collected) == if index == 0 then [] else Kept(arr, size)
    ensures Flatten(ChunkFrom(arr, size, index, collected)) == Kept(arr, size)
    decreases |arr| - index
  {
    if index < |arr| {
      var slice := Slice(arr, index, size);
      if index == 0 {
        assert slice == Kept(arr, size);
      } else if Starts(index, size) {
        NothingStarts(arr, size, index);
      }
      assert (collected + [slice])[..|collected|] == collected;
      UnsizedChunks(arr, size, index + 1, if Starts(index, size) then collected + [slice] else collected);
    }
  }

  lemma NothingStarts<T>(arr: seq<T>, size: int, index: nat)
    requires size <= 0 < index < |arr| && Starts(index, size)
    ensures Slice(arr, index, size) == []
  {
    if size < 0 {
      MultipleReaches(index, size);
    }
  }

  lemma MultipleReaches(index: int, size: int)
    requires size < 0 < index && index % size == 0
    ensures index + size >= 0
  {
    var q := -(index / size);
    assert index == q * -size;
    MulCancel(0, q, -size);
    MulOrder(1, q, -size);
  }

  /** A size of zero or less leaves only the start of the list, up to as far from its end. */
  lemma UnsizedKeeps<T>(arr: seq<T>, size: int)
    requires size <= 0
    ensures Flatten(Chunk(arr, size)) == Kept(arr, size)
  {
    UnsizedChunks(arr, size, 0, []);
  }

  /** Chunks lose and repeat nothing, exactly when the size is positive or there is nothing to split. */
  lemma ChunksFlattenIff<T>(arr: seq<T>, size: int)
    ensures Flatten(Chunk(arr, size)) == arr <==> size > 0 || arr == []
  {
    if size > 0 {
      ChunksAreSlices(arr, size);
      SlicesFlatten(arr, size, Chunk(arr, size));
      QuotientBounds(|arr| + size - 1, size);
    } else {
      UnsizedKeeps(arr, size);
    }
  }

  /** Two lists of one length fall into chunks that line up element by element. */
  lemma ChunksAlign<S, T>(xs: seq<S>, ys: seq<T>, size: nat)
    requires size > 0 && |xs| == |ys|
    ensures |Chunk(xs, size)| == |Chunk(ys, size)|
    ensures forall k :: 0 <= k < |Chunk(xs, size)| ==>
              && 0 <= k * size
              && 0 < |Chunk(xs, size)[k]| == |Chunk(ys, size)[k]| <= |xs| - k * size
              && forall j :: 0 <= j < |Chunk(xs, size)[k]| ==>
                   Chunk(xs, size)[k][j] == xs[k * size + j] && Chunk(ys, size)[k][j] == ys[k * size + j]
  {
    ChunksAreSlices(xs, size);
    ChunksAreSlices(ys, size);
  }
}
