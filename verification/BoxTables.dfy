/** components/squeezelite/alac.c, read_mp4_header: the tables in the boxes of a track, read out of
    the file; sections 8.7.3 to 8.7.5 of ISO/IEC 14496-12. A table with more entries than its box holds,
    or a sample-to-chunk table out of order, gives None. */
module BoxTables {
  import opened AlacTrack
  import opened BigEndian
  import opened ChunkTable
  import opened Memory
  import opened Wrappers

  // unpackN
  function Word(body: seq<byte>, at: nat): (w: nat)
    requires at + 4 <= |body|
  {
    ReadBE(body[at..at + 4])
  }

  function Words(body: seq<byte>, at: nat, n: nat): (ws: seq<nat>)
    requires at + 4 * n <= |body|
    ensures |ws| == n
  {
    seq(n, i requires 0 <= i < n => Word(body, at + 4 * i))
  }

  // The loops that copy a table of words.
  method ReadWords(body: seq<byte>, at: nat, n: nat) returns (ws: seq<nat>)
    requires at + 4 * n <= |body|
    ensures ws == Words(body, at, n)
  {
    ws := [];
    var i := 0;
    while i < n
      invariant 0 <= i <= n && |ws| == i
      invariant forall k :: 0 <= k < i ==> ws[k] == Word(body, at + 4 * k)
    {
      ws := ws + [Word(body, at + 4 * i)];
      i := i + 1;
    }
  }

  // stsz: one size for all samples, or one each and a zero behind them. The source needs the number of
  // samples only in the second case.
  function SizesIn(body: seq<byte>, t: Track): Option<Track> {
    if |body| < 20 then None
    else if Word(body, 12) > 0 then Some(t.(defaultSize := Word(body, 12), total := Word(body, 16)))
    else if |body| < 20 + 4 * Word(body, 16) then None
    else Some(t.(defaultSize := 0, total := Word(body, 16), sizes := Words(body, 20, Word(body, 16)) + [0]))
  }

  method ReadSizes(body: seq<byte>, t: Track) returns (r: Option<Track>)
    ensures r == SizesIn(body, t)
  {
    if |body| < 20 {
      return None;
    }
    var size, entries := Word(body, 12), Word(body, 16);
    if size > 0 {
      return Some(t.(defaultSize := size, total := entries));
    }
    if |body| < 20 + 4 * entries {
      return None;
    }
    var sizes := ReadWords(body, 20, entries);
    r := Some(t.(defaultSize := 0, total := entries, sizes := sizes + [0]));
  }

  // stsc: runs of chunks with the same number of samples.
  function RunsIn(stsc: seq<byte>): Option<seq<Run>> {
    if |stsc| < 4 || |stsc| < 4 + 12 * Word(stsc, 0) then None
    else Some(seq(Word(stsc, 0), i requires 0 <= i < Word(stsc, 0) =>
                Run(Word(stsc, 4 + 12 * i), Word(stsc, 8 + 12 * i))))
  }

  // The first sample of every chunk; zeros without runs.
  function FirstsOf(runs: seq<Run>, chunks: nat): (firsts: seq<nat>)
    ensures |firsts| == chunks
  {
    seq(chunks, c requires 0 <= c < chunks => if runs == [] then 0 else First32(runs, c))
  }

  // stco, with the stsc kept from before if there was one.
  function OffsetsIn(body: seq<byte>, stsc: Option<seq<byte>>, t: Track): Option<Track> {
    if |body| < 16 || |body| < 16 + 4 * Word(body, 12) then None
    else
      var n := Word(body, 12);
      var runs := if stsc.None? then Some([]) else RunsIn(stsc.value);
      if runs.None? || !Ordered(runs.value, n) then None
      else Some(t.(offsets := Words(body, 16, n), firsts := FirstsOf(runs.value, n)))
  }

  method ReadOffsets(body: seq<byte>, stsc: Option<seq<byte>>, t: Track) returns (r: Option<Track>)
    ensures r == OffsetsIn(body, stsc, t)
  {
    if |body| < 16 || |body| < 16 + 4 * Word(body, 12) {
      return None;
    }
    var n := Word(body, 12);
    var offsets := ReadWords(body, 16, n);
    var runs := if stsc.None? then Some([]) else RunsIn(stsc.value);
    if runs.None? || !Ordered(runs.value, n) {
      return None;
    }
    // the entry behind the last chunk stays zero
    var table := new nat[n + 1](_ => 0);
    Expand(table, runs.value, n);
    assert table[..n] == FirstsOf(runs.value, n);
    r := Some(t.(offsets := offsets, firsts := table[..n]));
  }

  // With at least one sample per chunk, the first samples start at 0 and strictly increase.
  lemma FirstsFromRuns(runs: seq<Run>, chunks: nat, c: nat, d: nat)
    requires Ordered(runs, chunks) && runs != [] && (forall i :: 0 <= i < |runs| ==> runs[i].samples >= 1)
    requires c < d < chunks && FirstSample(runs, d) < WORD
    ensures FirstsOf(runs, chunks)[0] == 0 && FirstsOf(runs, chunks)[c] < FirstsOf(runs, chunks)[d]
  {
    FirstsIncrease(runs, c, d);
  }
}
