/**
 * The chunk splitter of app/audio_extractor.py (`split_audio`). The audio is
 * represented by its length in milliseconds; the configured chunk length
 * and overlap are the parameters `length` and `overlap`. A chunk is its
 * index (the file is named `chunk_<index>.wav`), its start offset, and the
 * end of the slice `audio[start:start + length]`, which the slice clamps to
 * the end of the audio.
 */
module AudioChunks {

  datatype Chunk = Chunk(index: nat, startMs: nat, endMs: nat)

  /** The configured chunk length and overlap of app/config.py, in milliseconds. */
  const ChunkLengthMs: nat := 1000
  const ChunkOverlapMs: nat := 100

  function Min(a: int, b: int): int {
    if a <= b then a else b
  }

  /** The distance between consecutive chunk starts. */
  function Stride(length: nat, overlap: nat): nat
    requires overlap < length
  {
    length - overlap
  }

  /** The number of chunks: the ceiling of audioMs / stride. */
  function ChunkCount(audioMs: nat, stride: nat): nat
    requires stride > 0
  {
    (audioMs + stride - 1) / stride
  }

  /** The k-th chunk the splitter emits: it starts at k strides and covers the slice [start, start + length), clamped. */
  function ChunkAt(k: nat, audioMs: nat, length: nat, overlap: nat): Chunk
    requires overlap < length
  {
    var start := k * Stride(length, overlap);
    Chunk(k, start, Min(start + length, audioMs))
  }

  /** The chunk list that split_audio returns, written without the loop. */
  function Chunks(audioMs: nat, length: nat, overlap: nat): seq<Chunk>
    requires overlap < length
  {
    seq(ChunkCount(audioMs, Stride(length, overlap)), (k: nat) => ChunkAt(k, audioMs, length, overlap))
  }

  lemma MulMonotone(a: nat, b: nat, c: nat)
    requires a <= b
    ensures a * c <= b * c
  {
  }

  /** Chunk k exists exactly when its start k * stride lies before the end of the audio. */
  lemma ChunkCountMeans(audioMs: nat, stride: nat, k: nat)
    requires stride > 0
    ensures k < ChunkCount(audioMs, stride) <==> k * stride < audioMs
  {
    var q := ChunkCount(audioMs, stride);
    var m := audioMs + stride - 1;
    assert m == q * stride + m % stride;
    if k < q {
      MulMonotone(k + 1, q, stride);
      assert (k + 1) * stride == k * stride + stride;
    } else {
      MulMonotone(q + 1, k + 1, stride);
      assert (q + 1) * stride == q * stride + stride;
      assert (k + 1) * stride == k * stride + stride;
    }
  }

  /**
   * split_audio: walks the audio with a `while` loop, slicing
   * [start, start + length) and advancing by length - overlap. The code
   * never checks the stride; with overlap >= length the loop would not end,
   * so overlap < length is required here.
   */
  method SplitAudio(audioMs: nat, length: nat, overlap: nat) returns (chunks: seq<Chunk>)
    requires overlap < length
    ensures chunks == Chunks(audioMs, length, overlap)
  {
    var stride := length - overlap;
    chunks := [];
    var startMs := 0;
    var chunkIndex := 0;
    while startMs < audioMs
      invariant startMs == chunkIndex * stride
      invariant chunkIndex == 0 || (chunkIndex - 1) * stride < audioMs
      invariant |chunks| == chunkIndex
      invariant forall k :: 0 <= k < chunkIndex ==> chunks[k] == ChunkAt(k, audioMs, length, overlap)
      decreases audioMs - startMs
    {
      var endMs := startMs + length;
      chunks := chunks + [Chunk(chunkIndex, startMs, Min(endMs, audioMs))];
      startMs := startMs + stride;
      chunkIndex := chunkIndex + 1;
    }
    ChunkCountMeans(audioMs, stride, chunkIndex);
    if chunkIndex > 0 {
      ChunkCountMeans(audioMs, stride, chunkIndex - 1);
    }
  }

  /** Chunk k starts at k strides, carries index k, and every start lies before the end of the audio. */
  lemma ChunkOffsets(audioMs: nat, length: nat, overlap: nat, k: nat)
    requires overlap < length
    requires k < |Chunks(audioMs, length, overlap)|
    ensures var c := Chunks(audioMs, length, overlap)[k];
      c.index == k && c.startMs == k * (length - overlap) && c.startMs < audioMs
  {
    ChunkCountMeans(audioMs, Stride(length, overlap), k);
  }

  /** Silence of length zero gives no chunks; any other length gives at least one. */
  lemma EmptyAudioNoChunks(audioMs: nat, length: nat, overlap: nat)
    requires overlap < length
    ensures Chunks(audioMs, length, overlap) == [] <==> audioMs == 0
  {
    ChunkCountMeans(audioMs, Stride(length, overlap), 0);
  }

  /** Starts strictly increase. */
  lemma StartsIncrease(audioMs: nat, length: nat, overlap: nat, i: nat, j: nat)
    requires overlap < length
    requires i < j < |Chunks(audioMs, length, overlap)|
    ensures Chunks(audioMs, length, overlap)[i].startMs < Chunks(audioMs, length, overlap)[j].startMs
  {
    var stride := Stride(length, overlap);
    MulMonotone(i + 1, j, stride);
    assert (i + 1) * stride == i * stride + stride;
  }

  /**
   * A chunk spans [start, min(start + length, audio end)): it is never longer
   * than the configured length, never empty, and the last chunk reaches the
   * end of the audio even when it is shorter than the configured length.
   */
  lemma ChunkSpans(audioMs: nat, length: nat, overlap: nat, k: nat)
    requires overlap < length
    requires k < |Chunks(audioMs, length, overlap)|
    ensures var c := Chunks(audioMs, length, overlap)[k];
      c.startMs < c.endMs <= c.startMs + length && c.endMs <= audioMs
    ensures k == |Chunks(audioMs, length, overlap)| - 1 ==> Chunks(audioMs, length, overlap)[k].endMs == audioMs
  {
    var stride := Stride(length, overlap);
    ChunkCountMeans(audioMs, stride, k);
    if k == |Chunks(audioMs, length, overlap)| - 1 {
      ChunkCountMeans(audioMs, stride, k + 1);
      assert (k + 1) * stride == k * stride + stride;
    }
  }

  /**
   * Consecutive chunks leave no gap, and overlap by exactly `overlap`
   * milliseconds unless the first of them was clamped at the end of the audio.
   */
  lemma ConsecutiveChunksOverlap(audioMs: nat, length: nat, overlap: nat, k: nat)
    requires overlap < length
    requires k + 1 < |Chunks(audioMs, length, overlap)|
    ensures var cs := Chunks(audioMs, length, overlap);
      cs[k + 1].startMs <= cs[k].endMs &&
      (cs[k].startMs + length <= audioMs ==> cs[k].endMs == cs[k + 1].startMs + overlap)
  {
    var stride := Stride(length, overlap);
    ChunkCountMeans(audioMs, stride, k + 1);
    assert (k + 1) * stride == k * stride + stride;
  }

  /** Every millisecond of the audio lies in some chunk: the one numbered t / stride. */
  lemma ChunksCoverAudio(audioMs: nat, length: nat, overlap: nat, t: nat)
    requires overlap < length
    requires t < audioMs
    ensures var cs := Chunks(audioMs, length, overlap);
      exists k :: 0 <= k < |cs| && cs[k].startMs <= t < cs[k].endMs
  {
    var stride := Stride(length, overlap);
    var k := t / stride;
    assert t == k * stride + t % stride;
    ChunkCountMeans(audioMs, stride, k);
    var cs := Chunks(audioMs, length, overlap);
    assert cs[k].startMs <= t < cs[k].endMs;
  }
}
