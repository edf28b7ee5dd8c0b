/**
 * How the senders cut the file into payloads. The package senders call
 * `f.read(segment_size)` once per frame; the script's Go-Back-N sender slices
 * the whole file with a list comprehension. The file is a byte sequence and
 * a read is a slice starting at the current file position.
 */
module Chunking {
  import opened Bytes
  import opened ScriptPacket

  /** A read of `size` bytes at file position `pos`: up to `size` bytes, empty at the end of the file. */
  function Read(src: seq<byte>, pos: nat, size: nat): (r: seq<byte>)
    requires pos <= |src|
    ensures |r| <= size
    ensures r == [] <==> size == 0 || pos == |src|
  {
    src[pos..Min(pos + size, |src|)]
  }

  /**
   * `f.read(size)` at file position `pos` for any integer `size`: a negative
   * size reads the rest of the file.
   */
  function FileRead(src: seq<byte>, pos: nat, size: int): (r: seq<byte>)
    requires pos <= |src|
    ensures size >= 0 ==> |r| <= size
    ensures size < 0 ==> pos + |r| == |src|
    ensures r == [] <==> size == 0 || pos == |src|
  {
    if size < 0 then src[pos..] else src[pos..Min(pos + size, |src|)]
  }

  /** A read is the bytes at the file position. */
  lemma FileReadIsSlice(src: seq<byte>, pos: nat, size: int)
    requires pos <= |src|
    ensures var r := FileRead(src, pos, size); pos + |r| <= |src| && r == src[pos..pos + |r|]
  {
  }

  /**
   * The non-negative size the senders read with: a negative `segment_size`
   * reads to the end of the file, as a read of the whole file's length does.
   */
  function ReadSize(src: seq<byte>, size: int): (r: nat)
    ensures size >= 0 ==> r == size
  {
    if size < 0 then |src| else size
  }

  /** Reading with `ReadSize` reads exactly what `f.read(size)` reads, at every position. */
  lemma ReadSizeReadsSame(src: seq<byte>, pos: nat, size: int)
    requires pos <= |src|
    ensures Read(src, pos, ReadSize(src, size)) == FileRead(src, pos, size)
  {
  }

  /** The file position after `i` reads of `size` bytes. */
  function Offset(src: seq<byte>, size: nat, i: nat): (r: nat)
    ensures r <= |src|
  {
    if i == 0 then 0 else Min(Offset(src, size, i - 1) + size, |src|)
  }

  /** Read `i` comes back empty: nothing is left to read, or reads are of size 0. */
  predicate AtEnd(src: seq<byte>, size: nat, i: nat)
  {
    size == 0 || Offset(src, size, i) == |src|
  }

  /** The payload of the `i`-th read. */
  function Chunk(src: seq<byte>, size: nat, i: nat): (r: seq<byte>)
    ensures |r| == 0 <==> AtEnd(src, size, i)
  {
    Read(src, Offset(src, size, i), size)
  }

  /** The first `n` reads. */
  function Chunks(src: seq<byte>, size: nat, n: nat): (r: seq<seq<byte>>)
    ensures |r| == n
  {
    seq(n, i requires 0 <= i < n => Chunk(src, size, i))
  }

  /** After `i` reads the position is `i * size`, or the end of the file. */
  lemma {:induction false} OffsetClosedForm(src: seq<byte>, size: nat, i: nat)
    ensures Offset(src, size, i) == Min(i * size, |src|)
  {
    if i > 0 {
      OffsetClosedForm(src, size, i - 1);
      assert (i - 1) * size + size == i * size;
    }
  }

  /** The chunk read `i`-th spans positions Offset(i) to Offset(i + 1). */
  lemma ChunkSpan(src: seq<byte>, size: nat, i: nat)
    ensures Chunk(src, size, i) == src[Offset(src, size, i)..Offset(src, size, i + 1)]
  {
  }

  /** The first `n` reads, concatenated, are the first Offset(n) bytes of the file. */
  lemma {:induction false} ChunksFlatten(src: seq<byte>, size: nat, n: nat)
    ensures Flatten(Chunks(src, size, n)) == src[..Offset(src, size, n)]
  {
    if n > 0 {
      ChunksFlatten(src, size, n - 1);
      ChunksSnoc(src, size, n - 1);
      FlattenAppend(Chunks(src, size, n - 1), Chunk(src, size, n - 1));
      ChunkSpan(src, size, n - 1);
      PrefixSplit(src, Offset(src, size, n - 1), Offset(src, size, n));
    }
  }

  lemma ChunksSnoc(src: seq<byte>, size: nat, n: nat)
    ensures Chunks(src, size, n + 1) == Chunks(src, size, n) + [Chunk(src, size, n)]
  {
  }

  lemma PrefixSplit(src: seq<byte>, a: nat, b: nat)
    requires a <= b <= |src|
    ensures src[..b] == src[..a] + src[a..b]
  {
  }

  /** Once a read comes back empty, every later read does too. */
  lemma EmptyChunkStaysEmpty(src: seq<byte>, size: nat, i: nat)
    requires Chunk(src, size, i) == []
    ensures Chunk(src, size, i + 1) == []
  {
  }

  /** Past the end of the file every read is empty. */
  lemma AtEndStays(src: seq<byte>, size: nat, i: nat)
    requires AtEnd(src, size, i)
    ensures AtEnd(src, size, i + 1)
  {
  }

  /** With a positive size, a read is empty exactly when the whole file has been read. */
  lemma EmptyChunkIsEnd(src: seq<byte>, size: nat, i: nat)
    requires size > 0
    ensures Chunk(src, size, i) == [] <==> Offset(src, size, i) == |src|
  {
  }

  /**
   * When read `i` is the first empty one (it becomes the FIN frame), the reads
   * before it are the whole file, in order.
   */
  lemma ChunksBeforeEmptyAreFile(src: seq<byte>, size: nat, i: nat)
    requires size > 0 && Chunk(src, size, i) == []
    ensures Flatten(Chunks(src, size, i)) == src
  {
    ChunksFlatten(src, size, i);
    EmptyChunkIsEnd(src, size, i);
  }

  /** The number of reads that return data; read number Count is the first empty one. */
  function ChunkCount(n: nat, size: nat): nat
    requires size > 0
  {
    (n + size - 1) / size
  }

  /** Reads before ChunkCount return data and read ChunkCount returns nothing. */
  /**
   * With a negative `segment_size` the first read is the whole file and the
   * second comes back empty, so frame 1 is the FIN.
   */
  lemma NegativeSizeReadsWholeFile(src: seq<byte>, size: int)
    requires size < 0
    ensures Chunk(src, ReadSize(src, size), 0) == src
    ensures Chunk(src, ReadSize(src, size), 1) == []
  {
  }

  lemma FirstEmptyChunk(src: seq<byte>, size: nat, i: nat)
    requires size > 0
    ensures Chunk(src, size, i) == [] <==> i >= ChunkCount(|src|, size)
  {
    EmptyChunkIsEnd(src, size, i);
    OffsetClosedForm(src, size, i);
    var c := ChunkCount(|src|, size);
    if i >= c {
      assert c * size >= |src| by { DivCeil(|src|, size); }
      assert i * size >= c * size by { MulMono(c, i, size); }
    } else {
      assert i * size < |src| by {
        DivCeil(|src|, size);
        MulMono(i + 1, c, size);
        assert (i + 1) * size == i * size + size;
      }
    }
  }

  lemma DivCeil(n: nat, size: nat)
    requires size > 0
    ensures ChunkCount(n, size) * size >= n
    ensures ChunkCount(n, size) * size < n + size
  {
  }

  lemma MulMono(a: nat, b: nat, size: nat)
    requires a <= b
    ensures a * size <= b * size
  {
  }

  /**
   * rftp.py's `segments` before the FIN payload is appended:
   * `[data[i:i + MAX_PAYLOAD] for i in range(0, len(data), MAX_PAYLOAD)]`.
   */
  function Segments(data: seq<byte>): (r: seq<seq<byte>>)
    ensures |r| == ChunkCount(|data|, MAX_PAYLOAD)
  {
    var count := ChunkCount(|data|, MAX_PAYLOAD);
    seq(count, j requires 0 <= j < count =>
      data[j * MAX_PAYLOAD..Min(j * MAX_PAYLOAD + MAX_PAYLOAD, |data|)])
  }

  /** Every segment holds between 1 and MAX_PAYLOAD bytes. */
  lemma SegmentSizes(data: seq<byte>)
    ensures forall j :: 0 <= j < |Segments(data)| ==> 1 <= |Segments(data)[j]| <= MAX_PAYLOAD
  {
  }

  /** The segments, concatenated, are the data. */
  lemma SegmentsFlatten(data: seq<byte>)
    ensures Flatten(Segments(data)) == data
  {
    var segs := Segments(data);
    var j := 0;
    while j < |segs|
      invariant 0 <= j <= |segs|
      invariant Flatten(segs[..j]) == data[..Min(j * MAX_PAYLOAD, |data|)]
    {
      assert segs[..j + 1] == segs[..j] + [segs[j]];
      FlattenAppend(segs[..j], segs[j]);
      j := j + 1;
    }
    assert segs[..j] == segs;
    DivCeil(|data|, MAX_PAYLOAD);
  }

  /** The script's two framings agree: segment `j` is what the `j`-th `f.read(MAX_PAYLOAD)` returns. */
  lemma SegmentIsChunk(data: seq<byte>, j: nat)
    requires j < |Segments(data)|
    ensures Segments(data)[j] == Chunk(data, MAX_PAYLOAD, j)
  {
    OffsetClosedForm(data, MAX_PAYLOAD, j);
    DivCeil(|data|, MAX_PAYLOAD);
  }
}
