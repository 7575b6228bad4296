/** components/squeezelite/alac.c: where the samples of a track lie in the file, from the chunk
    offsets, the first sample of every chunk and the sample sizes; sections 8.7.3 to 8.7.5 of
    ISO/IEC 14496-12. */
module AlacTrack {
  import opened Memory

  // Chunk offsets (stco), the number of samples before each chunk (stsc), and sample sizes (stsz):
  // one size for all, or one each and a zero behind them.
  datatype Track = Track(offsets: seq<nat>, firsts: seq<nat>, sizes: seq<nat>, defaultSize: nat, total: nat)

  predicate Sized(t: Track) {
    t.defaultSize == 0 ==> |t.sizes| == t.total + 1 && t.sizes[t.total] == 0
  }

  function SizeOf(t: Track, k: nat): (n: nat)
    requires Sized(t) && k < t.total
  {
    if t.defaultSize > 0 then t.defaultSize else t.sizes[k]
  }

  // Bytes of the samples i..j.
  function Extent(t: Track, i: nat, j: nat): (n: nat)
    requires Sized(t) && j <= t.total
    decreases j
  {
    if i >= j then 0 else Extent(t, i, j - 1) + SizeOf(t, j - 1)
  }

  // Chunks hold at least one sample each and follow one another without overlap.
  predicate Laid(t: Track) {
    && Sized(t) && |t.offsets| == |t.firsts| > 0 && t.firsts[0] == 0
    && (forall c, d :: 0 <= c < d < |t.firsts| ==> t.firsts[c] < t.firsts[d])
    && (forall c :: 0 <= c < |t.firsts| ==> 0 < t.offsets[c] && t.firsts[c] < t.total)
    && (forall k :: 0 <= k < t.total ==> 0 < SizeOf(t, k))
    && (forall c :: 0 <= c < |t.offsets| - 1 ==>
          t.offsets[c] + Extent(t, t.firsts[c], t.firsts[c + 1]) <= t.offsets[c + 1])
  }

  // The chunk of a sample: the last one that starts at or before it.
  function ChunkFrom(t: Track, c: nat, k: nat): (d: nat)
    requires c < |t.firsts|
    ensures c <= d < |t.firsts|
    decreases |t.firsts| - c
  {
    if c + 1 < |t.firsts| && t.firsts[c + 1] <= k then ChunkFrom(t, c + 1, k) else c
  }

  function ChunkOf(t: Track, k: nat): (c: nat)
    requires |t.firsts| > 0
    ensures c < |t.firsts|
  {
    ChunkFrom(t, 0, k)
  }

  // Where sample k lies in the file: its chunk's offset and the earlier samples of the chunk.
  ghost function BlockStart(t: Track, k: nat): (p: nat)
    requires Laid(t) && k < t.total
  {
    t.offsets[ChunkOf(t, k)] + Extent(t, t.firsts[ChunkOf(t, k)], k)
  }

  // The bytes of sample k, as far as the file goes.
  ghost function Block(t: Track, file: seq<byte>, k: nat): (b: seq<byte>)
    requires Laid(t) && k < t.total
    ensures |b| <= SizeOf(t, k)
    ensures |b| == SizeOf(t, k) <==> BlockStart(t, k) + SizeOf(t, k) <= |file|
  {
    var start := Min(BlockStart(t, k), |file|);
    file[start..Min(start + SizeOf(t, k), |file|)]
  }

  // The reader is in chunk c with the samples before k behind it, and k starts at file offset p.
  // After the last sample of the track, k is the total.
  ghost predicate Position(t: Track, c: nat, k: nat, p: nat) {
    && Laid(t) && c < |t.firsts| && t.firsts[c] <= k <= t.total
    && (c + 1 < |t.firsts| ==> k < t.firsts[c + 1])
    && p == t.offsets[c] + Extent(t, t.firsts[c], k)
  }

  lemma {:induction false} ChunkFromIs(t: Track, from: nat, c: nat, k: nat)
    requires Laid(t) && from <= c < |t.firsts| && t.firsts[c] <= k
    requires c + 1 < |t.firsts| ==> k < t.firsts[c + 1]
    ensures ChunkFrom(t, from, k) == c
    decreases c - from
  {
    if from < c {
      assert t.firsts[from + 1] <= t.firsts[c];
      ChunkFromIs(t, from + 1, c, k);
    }
  }

  // Walking chunk by chunk and sample by sample finds the same place as the tables.
  lemma PositionIsBlockStart(t: Track, c: nat, k: nat, p: nat)
    requires Position(t, c, k, p) && k < t.total
    ensures BlockStart(t, k) == p
  {
    ChunkFromIs(t, 0, c, k);
  }

  // What the reader must know of a position to index its tables.
  lemma PositionFacts(t: Track, c: nat, k: nat, p: nat)
    requires Position(t, c, k, p)
    ensures Laid(t) && Sized(t) && |t.offsets| == |t.firsts| && c < |t.firsts| && k <= t.total
    ensures k < t.total ==> 0 < SizeOf(t, k)
    ensures c + 1 < |t.offsets| ==> 0 < t.offsets[c + 1] && k < t.total
  {
    if c + 1 < |t.firsts| {
      assert t.firsts[c + 1] < t.total;
    }
  }

  lemma Start(t: Track, p: nat)
    requires Laid(t)
    ensures Position(t, 0, 0, p) <==> p == t.offsets[0]
  {
    if |t.firsts| > 1 {
      assert t.firsts[0] < t.firsts[1];
    }
  }

  lemma StepWithin(t: Track, c: nat, k: nat, p: nat)
    requires Position(t, c, k, p) && k < t.total
    requires c + 1 < |t.firsts| ==> k + 1 != t.firsts[c + 1]
    ensures Position(t, c, k + 1, p + SizeOf(t, k))
  {
  }

  // After the last sample of a chunk comes the first of the next, further on in the file.
  lemma StepAcross(t: Track, c: nat, k: nat, p: nat)
    requires Position(t, c, k, p) && c + 1 < |t.firsts| && k + 1 == t.firsts[c + 1]
    ensures k < t.total && Position(t, c + 1, k + 1, t.offsets[c + 1])
    ensures p + SizeOf(t, k) <= t.offsets[c + 1]
  {
    assert k < t.total;
    assert Extent(t, t.firsts[c], k + 1) == Extent(t, t.firsts[c], k) + SizeOf(t, k);
    assert Extent(t, t.firsts[c + 1], k + 1) == 0;
    if c + 2 < |t.firsts| {
      assert t.firsts[c + 1] < t.firsts[c + 2];
    }
  }

  lemma NothingBefore(t: Track, k: nat)
    requires Sized(t) && k <= t.total
    ensures Extent(t, k, k) == 0
  {
  }

  // The blocks are the samples from `from` on, in order and each whole.
  ghost predicate Samples(t: Track, file: seq<byte>, from: nat, blocks: seq<seq<byte>>) {
    && Laid(t) && from + |blocks| <= t.total
    && forall i :: 0 <= i < |blocks| ==>
         blocks[i] == Block(t, file, from + i) && |blocks[i]| == SizeOf(t, from + i)
  }

  lemma NoSamples(t: Track, file: seq<byte>, from: nat)
    requires Laid(t) && from <= t.total
    ensures Samples(t, file, from, [])
  {
  }

  lemma OneMore(t: Track, file: seq<byte>, from: nat, blocks: seq<seq<byte>>, b: seq<byte>)
    requires Samples(t, file, from, blocks) && from + |blocks| < t.total
    requires b == Block(t, file, from + |blocks|) && |b| == SizeOf(t, from + |blocks|)
    ensures Samples(t, file, from, blocks + [b])
  {
    hide Laid, Block;
  }

  lemma Together(t: Track, file: seq<byte>, from: nat, a: seq<seq<byte>>, b: seq<seq<byte>>)
    requires Samples(t, file, from, a) && Samples(t, file, from + |a|, b)
    ensures Samples(t, file, from, a + b)
  {
    hide Laid, Block;
  }

  // Every sample is in the file and fits a buffer of this size.
  ghost predicate Playable(t: Track, file: seq<byte>, size: nat) {
    Laid(t) && forall k :: 0 <= k < t.total ==> BlockStart(t, k) + SizeOf(t, k) <= |file| && SizeOf(t, k) < size
  }

  lemma PlayableAt(t: Track, file: seq<byte>, size: nat, c: nat, k: nat, p: nat)
    requires Playable(t, file, size) && Position(t, c, k, p) && k < t.total
    ensures p + SizeOf(t, k) <= |file| && 0 < SizeOf(t, k) < size
  {
    PositionIsBlockStart(t, c, k, p);
  }

  lemma SizedAndStarted(t: Track)
    requires Laid(t)
    ensures Sized(t) && |t.offsets| == |t.firsts| > 0 && 0 < t.total
  {
    assert t.firsts[0] < t.total;
  }
}
