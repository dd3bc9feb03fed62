/**
 * The fixed-size sliding-window chunker of preprocessing/chunker.py.
 *
 * `chunk_text` walks a window of `chunk_size` characters over the text,
 * advancing by `chunk_size - overlap` each time, and cuts the window out with
 * a Python slice. The loop ends only when that step is positive, which is
 * the one requirement on the caller.
 */
module Chunker {
  import opened Text

  /** The chunk cut at `start`: `text[start:min(start + size, len(text))]`. */
  function Window(text: string, size: int, start: nat): string
    requires start <= |text|
  {
    PySlice(text, start, Min(start + size, |text|))
  }

  /** The chunks the loop appends once `start` has reached `start`. */
  function ChunksFrom(text: string, size: int, step: int, start: nat): seq<string>
    requires step > 0
    decreases |text| - start
  {
    if start >= |text| then []
    else [Window(text, size, start)] + ChunksFrom(text, size, step, start + step)
  }

  /** What `chunk_text(text, size, overlap)` returns. */
  function Chunks(text: string, size: int, overlap: int): seq<string>
    requires size > overlap
  {
    ChunksFrom(text, size, size - overlap, 0)
  }

  /** `chunk_text`: the window loop, appending one slice per step. An empty
      text gives no chunk whatever the sizes; on any other text the loop only
      ends when each step moves forward. */
  method ChunkText(text: string, chunkSize: int, overlap: int) returns (chunks: seq<string>)
    requires chunkSize > overlap || text == []
    ensures text == [] ==> chunks == []
    ensures chunkSize > overlap ==> chunks == Chunks(text, chunkSize, overlap)
  {
    chunks := [];
    var start: nat := 0;
    var length := |text|;
    while start < length
      invariant text == [] ==> chunks == []
      invariant chunkSize > overlap ==>
        chunks + ChunksFrom(text, chunkSize, chunkSize - overlap, start) == Chunks(text, chunkSize, overlap)
      decreases length - start
    {
      var end := Min(start + chunkSize, length);
      ghost var rest := ChunksFrom(text, chunkSize, chunkSize - overlap, start + chunkSize - overlap);
      assert PySlice(text, start, end) == Window(text, chunkSize, start);
      assert chunks + ([PySlice(text, start, end)] + rest) == (chunks + [PySlice(text, start, end)]) + rest;
      chunks := chunks + [PySlice(text, start, end)];
      start := start + chunkSize - overlap;
    }
  }

  /** Empty text gives no chunk. */
  lemma ChunksOfEmpty(size: int, overlap: int)
    requires size > overlap
    ensures Chunks([], size, overlap) == []
  {
  }

  /** There are just enough chunks for the last one to start inside the text. */
  lemma {:induction false} ChunkCountFrom(text: string, size: int, step: int, start: nat)
    requires step > 0
    ensures var c := ChunksFrom(text, size, step, start);
      && (c != [] ==> Offset(start, step, |c| - 1) < |text|)
      && Offset(start, step, |c|) >= |text|
    decreases |text| - start
  {
    if start < |text| {
      var c := ChunksFrom(text, size, step, start);
      var tail := ChunksFrom(text, size, step, start + step);
      ChunkCountFrom(text, size, step, start + step);
      assert |c| == |tail| + 1;
      OffsetShift(start, step, |c|);
      if tail != [] {
        OffsetShift(start, step, |c| - 1);
      }
    }
  }

  /** `start + k * step`, counted out step by step. */
  function Offset(start: nat, step: nat, k: nat): nat {
    if k == 0 then start else Offset(start, step, k - 1) + step
  }

  /** Chunk `k` from `start` starts at `start + k * step` and is the slice up
      to `min(start + k * step + size, len(text))`. */
  lemma {:induction false} ChunkAtFrom(text: string, size: int, step: int, start: nat, k: nat)
    requires step > 0
    requires k < |ChunksFrom(text, size, step, start)|
    ensures Offset(start, step, k) < |text|
    ensures ChunksFrom(text, size, step, start)[k] == Window(text, size, Offset(start, step, k))
    decreases k
  {
    if k > 0 {
      var tail := ChunksFrom(text, size, step, start + step);
      assert ChunksFrom(text, size, step, start)[k] == tail[k - 1];
      ChunkAtFrom(text, size, step, start + step, k - 1);
      OffsetShift(start, step, k);
    }
  }

  lemma {:induction false} OffsetIsProduct(start: nat, step: nat, k: nat)
    ensures Offset(start, step, k) == start + k * step
    decreases k
  {
    if k > 0 {
      OffsetIsProduct(start, step, k - 1);
      assert start + k * step == start + (k - 1) * step + step;
    }
  }

  lemma {:induction false} OffsetShift(start: nat, step: nat, k: nat)
    requires k > 0
    ensures Offset(start, step, k) == Offset(start + step, step, k - 1)
    decreases k
  {
    if k > 1 {
      OffsetShift(start, step, k - 1);
    }
  }

  /** Chunk `k` of `chunk_text` is the window at `k * (size - overlap)`, and
      the number of chunks is the least `n` with `n * (size - overlap) >= len(text)`. */
  lemma ChunkAt(text: string, size: int, overlap: int, k: nat)
    requires size > overlap
    requires k < |Chunks(text, size, overlap)|
    ensures var step := size - overlap;
      && k * step < |text|
      && Chunks(text, size, overlap)[k] == PySlice(text, k * step, Min(k * step + size, |text|))
  {
    var step := size - overlap;
    assert Offset(0, step, k) == k * step by { OffsetIsProduct(0, step, k); }
    ChunkAtFrom(text, size, step, 0, k);
  }

  lemma ChunkCount(text: string, size: int, overlap: int)
    requires size > overlap
    ensures var c := Chunks(text, size, overlap);
      && (c != [] ==> (|c| - 1) * (size - overlap) < |text|)
      && |c| * (size - overlap) >= |text|
  {
    var c := Chunks(text, size, overlap);
    ChunkCountFrom(text, size, size - overlap, 0);
    OffsetIsProduct(0, size - overlap, |c|);
    if c != [] {
      OffsetIsProduct(0, size - overlap, |c| - 1);
    }
  }

  /** With a positive window every chunk is a non-empty piece of at most `size` characters. */
  lemma {:induction false} ChunksBoundedFrom(text: string, size: int, step: int, start: nat)
    requires step > 0 && size > 0
    ensures forall c :: c in ChunksFrom(text, size, step, start) ==> 0 < |c| <= size
    decreases |text| - start
  {
    if start < |text| {
      ChunksBoundedFrom(text, size, step, start + step);
    }
  }

  lemma ChunksBounded(text: string, size: int, overlap: int)
    requires size > overlap && size > 0
    ensures forall c :: c in Chunks(text, size, overlap) ==> 0 < |c| <= size
  {
    ChunksBoundedFrom(text, size, size - overlap, 0);
  }

  /** When windows overlap or touch (`step <= size`), the last chunk runs to the end of the text. */
  lemma {:induction false} LastChunkEndsFrom(text: string, size: int, step: int, start: nat)
    requires 0 < step <= size && start < |text|
    ensures var c := ChunksFrom(text, size, step, start);
      c != [] && EndsWith(text, c[|c| - 1])
    decreases |text| - start
  {
    if start + step < |text| {
      LastChunkEndsFrom(text, size, step, start + step);
    }
  }

  /** For `0 <= overlap < size` and a non-empty text, the last chunk ends at `len(text)`. */
  lemma LastChunkEnds(text: string, size: int, overlap: int)
    requires 0 <= overlap < size && text != []
    ensures var c := Chunks(text, size, overlap);
      c != [] && EndsWith(text, c[|c| - 1])
  {
    LastChunkEndsFrom(text, size, size - overlap, 0);
  }

  /** Every character at or after `start` lies inside some chunk from `start`. */
  lemma {:induction false} CoveredFrom(text: string, size: int, step: int, start: nat, i: nat)
    requires 0 < step <= size && start <= i < |text|
    ensures var c := ChunksFrom(text, size, step, start);
      exists k :: 0 <= k < |c| && Offset(start, step, k) <= i < Offset(start, step, k) + |c[k]|
    decreases |text| - start
  {
    var c := ChunksFrom(text, size, step, start);
    var end := Min(start + size, |text|);
    assert c[0] == text[start..end];
    if i < end {
      assert Offset(start, step, 0) <= i < Offset(start, step, 0) + |c[0]|;
    } else {
      CoveredFrom(text, size, step, start + step, i);
      var tail := ChunksFrom(text, size, step, start + step);
      var k :| 0 <= k < |tail| && Offset(start + step, step, k) <= i < Offset(start + step, step, k) + |tail[k]|;
      assert c[k + 1] == tail[k];
      OffsetShift(start, step, k + 1);
      assert Offset(start, step, k + 1) <= i < Offset(start, step, k + 1) + |c[k + 1]|;
    }
  }

  /** For `0 <= overlap < size`, every character of the text is inside some chunk. */
  lemma Covered(text: string, size: int, overlap: int, i: nat)
    requires 0 <= overlap < size && i < |text|
    ensures var c := Chunks(text, size, overlap);
      exists k :: 0 <= k < |c| && k * (size - overlap) <= i < k * (size - overlap) + |c[k]|
  {
    var c := Chunks(text, size, overlap);
    CoveredFrom(text, size, size - overlap, 0, i);
    var k :| 0 <= k < |c| && Offset(0, size - overlap, k) <= i < Offset(0, size - overlap, k) + |c[k]|;
    OffsetIsProduct(0, size - overlap, k);
    assert k * (size - overlap) <= i < k * (size - overlap) + |c[k]|;
  }

  /** Without overlap the chunks are consecutive pieces of the text. */
  lemma {:induction false} ConcatFrom(text: string, size: int, start: nat)
    requires size > 0 && start <= |text|
    ensures Join(ChunksFrom(text, size, size, start), "") == text[start..]
    decreases |text| - start
  {
    if start < |text| {
      var tail := ChunksFrom(text, size, size, start + size);
      if start + size < |text| {
        ConcatFrom(text, size, start + size);
        assert tail != [];
        assert text[start..] == text[start..start + size] + text[start + size..];
      }
    }
  }

  /** With `overlap == 0`, concatenating the chunks gives back the text. */
  lemma ConcatWithoutOverlap(text: string, size: int)
    requires size > 0
    ensures Join(Chunks(text, size, 0), "") == text
  {
    ConcatFrom(text, size, 0);
  }
}
