/** Splitting a sequence into consecutive chunks (EnumerableExtensions.Chunk), for the case
    where every chunk is consumed completely and in order before the next one is requested. */
module EnumerableExtensions {

  /** The number of elements a chunk takes: YieldChunkElements always yields the current
      element and then up to `chunkSize - 1` more, so a size below 1 behaves as 1. */
  function ChunkLength(chunkSize: int): (n: nat)
    ensures n >= 1 && n >= chunkSize
    ensures chunkSize >= 1 ==> n == chunkSize
  {
    if chunkSize < 1 then 1 else chunkSize
  }

  /** The chunks of `source`, in order. */
  function Chunks<T>(source: seq<T>, chunkSize: int): (r: seq<seq<T>>)
    ensures source == [] <==> r == []
    ensures forall j :: 0 <= j < |r| ==> 0 < |r[j]| <= ChunkLength(chunkSize)
    decreases |source|
  {
    if source == [] then []
    else
      var k := if |source| < ChunkLength(chunkSize) then |source| else ChunkLength(chunkSize);
      [source[..k]] + Chunks(source[k..], chunkSize)
  }

  /** Concatenation of a sequence of sequences. */
  function Flatten<T>(xss: seq<seq<T>>): seq<T>
  {
    if xss == [] then [] else xss[0] + Flatten(xss[1..])
  }

  /** Consuming the chunks in order gives back the source. */
  lemma {:induction false} FlattenChunks<T>(source: seq<T>, chunkSize: int)
    ensures Flatten(Chunks(source, chunkSize)) == source
    decreases |source|
  {
    if source != [] {
      var k := if |source| < ChunkLength(chunkSize) then |source| else ChunkLength(chunkSize);
      FlattenChunks(source[k..], chunkSize);
      assert Chunks(source, chunkSize)[1..] == Chunks(source[k..], chunkSize);
      assert source[..k] + source[k..] == source;
    }
  }

  /** With a positive chunk size there are ceil(n / chunkSize) chunks: enough to hold the
      source, and one fewer would not be. */
  lemma {:induction false} ChunkCount<T>(source: seq<T>, chunkSize: int)
    requires chunkSize >= 1
    ensures (|Chunks(source, chunkSize)| - 1) * chunkSize < |source| <= |Chunks(source, chunkSize)| * chunkSize
    decreases |source|
  {
    if source != [] {
      var k := if |source| < chunkSize then |source| else chunkSize;
      var rest := source[k..];
      var c := |Chunks(rest, chunkSize)|;
      ChunkCount(rest, chunkSize);
      assert |Chunks(source, chunkSize)| == c + 1;
      var m := c * chunkSize;
      assert (c + 1) * chunkSize == m + chunkSize;
      assert (c - 1) * chunkSize == m - chunkSize;
      if k < chunkSize {
        assert rest == [];
      }
    }
  }

  /** Where chunk `j` starts when every chunk before it is full, counted out by repeated
      addition. */
  function ChunkStart(j: nat, chunkSize: nat): nat
  {
    if j == 0 then 0 else ChunkStart(j - 1, chunkSize) + chunkSize
  }

  /** Chunk `j` starts at `j * chunkSize`. */
  lemma {:induction false} ChunkStartIsProduct(j: nat, chunkSize: nat)
    ensures ChunkStart(j, chunkSize) == j * chunkSize
  {
    if j > 0 {
      ChunkStartIsProduct(j - 1, chunkSize);
    }
  }

  /** A source with more than one chunk starts with a full chunk. */
  lemma FirstChunkFull<T>(source: seq<T>, chunkSize: nat)
    requires chunkSize >= 1
    requires |Chunks(source, chunkSize)| > 1
    ensures chunkSize < |source|
    ensures Chunks(source, chunkSize) == [source[..chunkSize]] + Chunks(source[chunkSize..], chunkSize)
  {
  }

  /** With a positive chunk size, chunk `j` is the slice that starts at `j * chunkSize`,
      cut short only by the end of the source. */
  lemma {:induction false} ChunkAt<T>(source: seq<T>, chunkSize: nat, j: nat)
    requires chunkSize >= 1
    requires j < |Chunks(source, chunkSize)|
    ensures ChunkStart(j, chunkSize) < |source|
    ensures Chunks(source, chunkSize)[j] ==
              source[ChunkStart(j, chunkSize) ..
                     if ChunkStart(j + 1, chunkSize) <= |source| then ChunkStart(j + 1, chunkSize) else |source|]
    decreases j
  {
    if j > 0 {
      FirstChunkFull(source, chunkSize);
      ChunkAt(source[chunkSize..], chunkSize, j - 1);
      ShiftChunk(source, chunkSize, j, Chunks(source, chunkSize), Chunks(source[chunkSize..], chunkSize));
    } else {
      assert ChunkStart(1, chunkSize) == chunkSize;
    }
  }

  /** The step of ChunkAt: chunk `j - 1` of the source without its first chunk, located in that
      suffix, is chunk `j` of the source, located in the source. */
  lemma ShiftChunk<T>(source: seq<T>, chunkSize: nat, j: nat, all: seq<seq<T>>, tail: seq<seq<T>>)
    requires 1 <= chunkSize < |source| && 0 < j < |all|
    requires all == [source[..chunkSize]] + tail
    requires var rest := source[chunkSize..];
             && ChunkStart(j - 1, chunkSize) < |rest|
             && tail[j - 1] ==
                rest[ChunkStart(j - 1, chunkSize) ..
                     if ChunkStart(j, chunkSize) <= |rest| then ChunkStart(j, chunkSize) else |rest|]
    ensures ChunkStart(j, chunkSize) < |source|
    ensures all[j] ==
              source[ChunkStart(j, chunkSize) ..
                     if ChunkStart(j + 1, chunkSize) <= |source| then ChunkStart(j + 1, chunkSize) else |source|]
  {
    var rest := source[chunkSize..];
    var lo, mid := ChunkStart(j - 1, chunkSize), ChunkStart(j, chunkSize);
    assert mid == lo + chunkSize;
    assert ChunkStart(j + 1, chunkSize) == mid + chunkSize;
    var end := if mid <= |rest| then mid else |rest|;
    IndexAfterHead(source[..chunkSize], tail, j);
    SliceOfSuffix(source, chunkSize, lo, end);
  }

  /** Element `j` of a sequence behind one head element is element `j - 1` of the rest. */
  lemma IndexAfterHead<T>(head: T, rest: seq<T>, j: nat)
    requires 0 < j <= |rest|
    ensures ([head] + rest)[j] == rest[j - 1]
  {
  }

  /** A slice of a suffix is a slice of the whole, shifted by where the suffix starts. */
  lemma SliceOfSuffix<T>(source: seq<T>, start: nat, lo: nat, end: nat)
    requires start <= |source| && lo <= end <= |source| - start
    ensures source[start..][lo..end] == source[start + lo .. start + end]
  {
  }

  /** Every chunk but the last has exactly `chunkSize` elements. */
  lemma FullChunks<T>(source: seq<T>, chunkSize: nat, j: nat)
    requires chunkSize >= 1
    requires j + 1 < |Chunks(source, chunkSize)|
    ensures |Chunks(source, chunkSize)[j]| == chunkSize
  {
    ChunkAt(source, chunkSize, j);
    ChunkAt(source, chunkSize, j + 1);
    assert ChunkStart(j + 1, chunkSize) < |source|;
  }

  /** The chunks of a suffix: its first chunk, then the chunks after it. */
  lemma ChunksFrom<T>(source: seq<T>, chunkSize: int, start: nat, position: nat)
    requires start < position <= |source|
    requires position - start == ChunkLength(chunkSize) || position == |source|
    requires position - start <= ChunkLength(chunkSize)
    ensures Chunks(source[start..], chunkSize) == [source[start..position]] + Chunks(source[position..], chunkSize)
  {
    var tail := source[start..];
    assert tail[..position - start] == source[start..position];
    assert tail[position - start..] == source[position..];
  }

  /** Taking the chunk from `start` to `position` moves the split between the chunks taken and
      the chunks still to come past that chunk. */
  lemma NextChunk<T>(source: seq<T>, chunkSize: int, chunks: seq<seq<T>>, start: nat, position: nat)
    requires start < position <= |source|
    requires position - start == ChunkLength(chunkSize) || position == |source|
    requires position - start <= ChunkLength(chunkSize)
    requires chunks + Chunks(source[start..], chunkSize) == Chunks(source, chunkSize)
    ensures (chunks + [source[start..position]]) + Chunks(source[position..], chunkSize) == Chunks(source, chunkSize)
  {
    ChunksFrom(source, chunkSize, start, position);
    var chunk := source[start..position];
    assert (chunks + [chunk]) + Chunks(source[position..], chunkSize) ==
           chunks + ([chunk] + Chunks(source[position..], chunkSize));
  }

  /** The enumerator-driven Chunk: the outer loop advances the shared enumerator once per chunk
      and hands it to YieldChunkElements with `chunkSize - 1`. */
  method Chunk<T>(source: seq<T>, chunkSize: int) returns (chunks: seq<seq<T>>)
    ensures chunks == Chunks(source, chunkSize)
  {
    chunks := [];
    var position := 0;
    assert source[position..] == source;
    while position < |source|
      invariant 0 <= position <= |source|
      invariant chunks + Chunks(source[position..], chunkSize) == Chunks(source, chunkSize)
      decreases |source| - position
    {
      var start := position;
      var chunk;
      chunk, position := YieldChunkElements(source, start, chunkSize - 1);
      NextChunk(source, chunkSize, chunks, start, position);
      chunks := chunks + [chunk];
    }
    assert source[position..] == [];
  }

  /** YieldChunkElements: the current element (at `start`), then further elements while fewer
      than `more` have been taken and the enumerator has one; returns the chunk and the position
      of the first element not taken. The chunk stops short of `more + 1` elements only at the
      end of the source. */
  method YieldChunkElements<T>(source: seq<T>, start: nat, more: int) returns (chunk: seq<T>, position: nat)
    requires start < |source|
    ensures start < position <= |source|
    ensures position - start <= ChunkLength(more + 1)
    ensures position - start == ChunkLength(more + 1) || position == |source|
    ensures chunk == source[start..position]
  {
    chunk := [source[start]];
    position := start + 1;
    var i := 0;
    while i < more && position < |source|
      invariant start < position <= |source|
      invariant position - start == i + 1 <= ChunkLength(more + 1)
      invariant chunk == source[start..position]
      decreases |source| - position
    {
      chunk := chunk + [source[position]];
      position := position + 1;
      i := i + 1;
    }
  }
}
