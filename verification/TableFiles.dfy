/** components/squeezelite/alac.c, read_mp4_header: table boxes as a writer lays them out, and what is read of
    them; sections 8.7.3 to 8.7.5 of ISO/IEC 14496-12. */
module TableFiles {
  import opened AlacTrack
  import opened BigEndian
  import opened BoxFiles
  import opened BoxTables
  import opened ChunkTable
  import opened Memory
  import opened Wrappers

  function WordBytes(ws: seq<nat>): (s: seq<byte>)
    ensures |s| == 4 * |ws|
  {
    if ws == [] then [] else WordBytes(ws[..|ws| - 1]) + BE(4, ws[|ws| - 1])
  }

  ghost predicate Small(ws: seq<nat>) {
    forall i :: 0 <= i < |ws| ==> ws[i] < 0x1_0000_0000
  }

  lemma {:induction false} WordBytesAt(ws: seq<nat>, i: nat)
    requires i < |ws|
    ensures WordBytes(ws)[4 * i..4 * i + 4] == BE(4, ws[i])
    decreases |ws|
  {
    var n := |ws| - 1;
    if i < n {
      WordBytesAt(ws[..n], i);
      assert WordBytes(ws)[4 * i..4 * i + 4] == WordBytes(ws[..n])[4 * i..4 * i + 4];
    } else {
      hide BE;
    }
  }

  // A full box: version and flags, then words.
  function TableBox(name: string, flags: seq<byte>, ws: seq<nat>): (b: seq<byte>)
    requires Named(name) && |flags| == 4
    ensures |b| == 12 + 4 * |ws|
  {
    Box(name, flags + WordBytes(ws))
  }

  lemma TableWord(name: string, flags: seq<byte>, ws: seq<nat>, i: nat)
    requires Named(name) && |flags| == 4 && Small(ws) && i < |ws|
    ensures Word(TableBox(name, flags, ws), 12 + 4 * i) == ws[i]
  {
    hide BE, ReadBE, Box, WordBytes, Word;
    var payload := flags + WordBytes(ws);
    WordBytesAt(ws, i);
    PayloadWord(name, payload, 4 + 4 * i);
    assert payload[4 + 4 * i..8 + 4 * i] == WordBytes(ws)[4 * i..4 * i + 4];
    WordRange();
    ReadWritten(4, ws[i]);
  }

  lemma WordRange()
    ensures Range(4) == 0x1_0000_0000
  {
  }

  lemma LaterWord(body: seq<byte>, skip: nat, at: nat)
    requires skip + at + 4 <= |body|
    ensures Word(body[skip..], at) == Word(body, skip + at)
  {
    hide ReadBE;
    assert body[skip..][at..at + 4] == body[skip + at..skip + at + 4];
  }

  // ---------------------------------------------------------------- stsz

  // One size for each sample.
  lemma EachSizeRead(flags: seq<byte>, sizes: seq<nat>, t: Track)
    requires |flags| == 4 && Small(sizes) && |sizes| < 0x1_0000_0000
    ensures SizesIn(TableBox("stsz", flags, [0, |sizes|] + sizes), t)
         == Some(t.(defaultSize := 0, total := |sizes|, sizes := sizes + [0]))
  {
    hide Word, TableBox;
    var ws := [0, |sizes|] + sizes;
    var body := TableBox("stsz", flags, ws);
    TableWord("stsz", flags, ws, 0);
    TableWord("stsz", flags, ws, 1);
    forall i | 0 <= i < |sizes|
      ensures Word(body, 20 + 4 * i) == sizes[i]
    {
      TableWord("stsz", flags, ws, 2 + i);
    }
    assert Words(body, 20, |sizes|) == sizes;
  }

  // One size for all.
  lemma OneSizeRead(flags: seq<byte>, size: nat, count: nat, t: Track)
    requires |flags| == 4 && 0 < size < 0x1_0000_0000 && count < 0x1_0000_0000
    ensures SizesIn(TableBox("stsz", flags, [size, count]), t) == Some(t.(defaultSize := size, total := count))
  {
    hide Word, TableBox;
    TableWord("stsz", flags, [size, count], 0);
    TableWord("stsz", flags, [size, count], 1);
  }

  // ---------------------------------------------------------------- stsc and stco

  // An entry has the first chunk of a run, its samples per chunk, and the index of a sample description.
  function Entries(runs: seq<Run>, descs: seq<nat>): (ws: seq<nat>)
    requires |descs| == |runs|
    ensures |ws| == 3 * |runs|
  {
    seq(3 * |runs|, j requires 0 <= j < 3 * |runs| =>
      if j % 3 == 0 then runs[j / 3].first else if j % 3 == 1 then runs[j / 3].samples else descs[j / 3])
  }

  ghost predicate SmallRuns(runs: seq<Run>, descs: seq<nat>) {
    && |descs| == |runs| < 0x1_0000_0000 && Small(descs)
    && forall i :: 0 <= i < |runs| ==> runs[i].first < 0x1_0000_0000 && runs[i].samples < 0x1_0000_0000
  }

  function RunsBox(flags: seq<byte>, runs: seq<Run>, descs: seq<nat>): (b: seq<byte>)
    requires |flags| == 4 && |descs| == |runs|
    ensures |b| == 16 + 12 * |runs|
  {
    TableBox("stsc", flags, [|runs|] + Entries(runs, descs))
  }

  // The runs come back, whatever the indices.
  lemma RunsRead(flags: seq<byte>, runs: seq<Run>, descs: seq<nat>)
    requires |flags| == 4 && SmallRuns(runs, descs)
    ensures RunsIn(RunsBox(flags, runs, descs)[12..]) == Some(runs)
  {
    hide Word, TableBox;
    var ws := [|runs|] + Entries(runs, descs);
    var body := RunsBox(flags, runs, descs);
    var kept := body[12..];
    SmallEntries(runs, descs);
    TableWord("stsc", flags, ws, 0);
    LaterWord(body, 12, 0);
    forall i | 0 <= i < |runs|
      ensures Word(kept, 4 + 12 * i) == runs[i].first && Word(kept, 8 + 12 * i) == runs[i].samples
    {
      EntryWords(runs, descs, i);
      TableWord("stsc", flags, ws, 1 + 3 * i);
      TableWord("stsc", flags, ws, 2 + 3 * i);
      LaterWord(body, 12, 4 + 12 * i);
      LaterWord(body, 12, 8 + 12 * i);
    }
    var read := RunsIn(kept).value;
    forall i | 0 <= i < |runs|
      ensures read[i] == runs[i]
    {
    }
    assert read == runs;
  }

  lemma EntryWords(runs: seq<Run>, descs: seq<nat>, i: nat)
    requires |descs| == |runs| && i < |runs|
    ensures Entries(runs, descs)[3 * i] == runs[i].first && Entries(runs, descs)[3 * i + 1] == runs[i].samples
  {
    assert (3 * i) / 3 == i && (3 * i + 1) / 3 == i;
  }

  lemma SmallEntries(runs: seq<Run>, descs: seq<nat>)
    requires SmallRuns(runs, descs)
    ensures Small([|runs|] + Entries(runs, descs))
  {
  }

  // The samples that the runs put in front of chunk c, counted run by run.
  function InFront(runs: seq<Run>, c: nat): (n: nat)
    decreases |runs|
  {
    if runs == [] then 0
    else
      var last, rest := runs[|runs| - 1], runs[..|runs| - 1];
      if 1 <= last.first <= c then InFront(rest, last.first - 1) + (c + 1 - last.first) * last.samples
      else InFront(rest, c)
  }

  lemma {:induction false} CountedByRuns(runs: seq<Run>, chunks: nat, c: nat)
    requires Ordered(runs, chunks)
    ensures FirstSample(runs, c) == InFront(runs, c)
    decreases |runs|, c
  {
    if c == 0 {
      NoneInFront(runs, chunks);
    } else if runs == [] {
      CountedByRuns(runs, chunks, c - 1);
    } else {
      var last, rest := runs[|runs| - 1], runs[..|runs| - 1];
      CountedByRuns(runs, chunks, c - 1);
      if last.first <= c {
        var n := c + 1 - last.first;
        assert n * last.samples == (n - 1) * last.samples + last.samples;
      } else {
        CountedByRuns(rest, chunks, c - 1);
        CountedByRuns(rest, chunks, c);
      }
    }
  }

  lemma {:induction false} NoneInFront(runs: seq<Run>, chunks: nat)
    requires Ordered(runs, chunks)
    ensures InFront(runs, 0) == 0
    decreases |runs|
  {
    if runs != [] {
      NoneInFront(runs[..|runs| - 1], chunks);
    }
  }

  // A stsc box and a stco box give the offsets written, and in front of each chunk the samples the runs put
  // there, modulo 2^32.
  lemma ChunksRead(flags: seq<byte>, runs: seq<Run>, descs: seq<nat>, flags': seq<byte>, offsets: seq<nat>, t: Track)
    requires |flags| == |flags'| == 4 && SmallRuns(runs, descs) && runs != []
    requires Small(offsets) && |offsets| < 0x1_0000_0000 && Ordered(runs, |offsets|)
    ensures OffsetsIn(TableBox("stco", flags', [|offsets|] + offsets), Some(RunsBox(flags, runs, descs)[12..]), t)
         == Some(t.(offsets := offsets,
                    firsts := seq(|offsets|, c requires 0 <= c < |offsets| => InFront(runs, c) % 0x1_0000_0000)))
  {
    hide Word, TableBox, RunsIn, RunsBox;
    var ws := [|offsets|] + offsets;
    var body := TableBox("stco", flags', ws);
    RunsRead(flags, runs, descs);
    TableWord("stco", flags', ws, 0);
    forall i | 0 <= i < |offsets|
      ensures Word(body, 16 + 4 * i) == offsets[i]
    {
      TableWord("stco", flags', ws, 1 + i);
    }
    assert Words(body, 16, |offsets|) == offsets;
    var firsts := seq(|offsets|, c requires 0 <= c < |offsets| => InFront(runs, c) % 0x1_0000_0000);
    forall c | 0 <= c < |offsets|
      ensures FirstsOf(runs, |offsets|)[c] == firsts[c]
    {
      CountedByRuns(runs, |offsets|, c);
    }
    assert FirstsOf(runs, |offsets|) == firsts;
  }
}
