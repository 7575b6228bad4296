/** components/squeezelite/alac.c, read_mp4_header: the table of chunks built from the chunk offsets
    (stco) and the run-length sample-to-chunk box (stsc), sections 8.7.5 and 8.7.4 of
    ISO/IEC 14496-12. */
module ChunkTable {
  import opened Memory

  // Chunks from `first` (counted from 1) on hold `samples` samples each.
  datatype Run = Run(first: nat, samples: nat)

  // As the standard orders them: from chunk 1, strictly increasing, within the chunks there are.
  predicate Ordered(stsc: seq<Run>, chunks: nat) {
    && (stsc != [] ==> stsc[0].first == 1)
    && (forall i, j :: 0 <= i < j < |stsc| ==> stsc[i].first < stsc[j].first)
    && (forall i :: 0 <= i < |stsc| ==> 1 <= stsc[i].first <= chunks)
  }

  // Samples in chunk c, counted from 0: those of the last run that starts at or before it.
  function PerChunk(stsc: seq<Run>, c: nat): (n: nat)
    decreases |stsc|
  {
    if stsc == [] then 0
    else if stsc[|stsc| - 1].first <= c + 1 then stsc[|stsc| - 1].samples
    else PerChunk(stsc[..|stsc| - 1], c)
  }

  // Samples before chunk c.
  function FirstSample(stsc: seq<Run>, c: nat): (n: nat)
  {
    if c == 0 then 0 else FirstSample(stsc, c - 1) + PerChunk(stsc, c - 1)
  }

  // ... as the source counts them.
  function First32(stsc: seq<Run>, c: nat): (n: nat) {
    FirstSample(stsc, c) % WORD
  }

  // Between the starts of two neighbouring runs the earlier one applies.
  lemma {:induction false} RunApplies(stsc: seq<Run>, chunks: nat, k: nat, c: nat)
    requires Ordered(stsc, chunks) && k < |stsc|
    requires stsc[k].first <= c + 1 && (k + 1 < |stsc| ==> c + 1 < stsc[k + 1].first)
    ensures PerChunk(stsc, c) == stsc[k].samples
    decreases |stsc|
  {
    if k + 1 < |stsc| {
      assert stsc[|stsc| - 1].first >= stsc[k + 1].first;
      RunApplies(stsc[..|stsc| - 1], chunks, k, c);
    }
  }

  // One of the two inner loops: chunks from..to get their first sample, each with `each` samples.
  method FillRun(table: array<nat>, from: nat, to: nat, start: nat, each: nat, ghost stsc: seq<Run>)
      returns (sample: nat)
    requires from <= to <= table.Length
    requires start == First32(stsc, from)
    requires forall c :: from <= c < to ==> PerChunk(stsc, c) == each
    modifies table
    ensures sample == First32(stsc, to)
    ensures forall c :: 0 <= c < table.Length ==>
              table[c] == if from <= c < to then First32(stsc, c) else old(table[c])
  {
    sample := start;
    var i := from;
    while i < to
      invariant from <= i <= to && sample == First32(stsc, i)
      invariant forall c :: 0 <= c < table.Length ==>
                  table[c] == if from <= c < i then First32(stsc, c) else old(table[c])
    {
      table[i] := sample;
      WrappedSum(FirstSample(stsc, i), each);
      sample := (sample + each) % WORD;
      i := i + 1;
    }
  }

  lemma WrappedSum(a: nat, b: nat)
    ensures (a % WORD + b) % WORD == (a + b) % WORD
  {
  }

  // The nested loops: every chunk's `sample` is the number of samples in all earlier chunks,
  // in 32-bit arithmetic. Without runs the table keeps its zeros.
  method Expand(table: array<nat>, stsc: seq<Run>, entries: nat)
    requires entries < table.Length && Ordered(stsc, entries)
    requires forall c :: 0 <= c < table.Length ==> table[c] == 0
    modifies table
    ensures forall c :: 0 <= c < entries && stsc != [] ==> table[c] == First32(stsc, c)
    ensures forall c :: 0 <= c < table.Length && (c >= entries || stsc == []) ==> table[c] == 0
  {
    assert First32(stsc, 0) == 0;
    hide First32, PerChunk;
    var sample: nat, last: nat, lastSamples: nat := 0, 0, 0;
    var k: nat := 0;
    while k < |stsc|
      invariant k <= |stsc|
      invariant k == 0 ==> last == 0 && sample == 0
      invariant 0 < k ==> last == stsc[k - 1].first && lastSamples == stsc[k - 1].samples
      invariant var done := if k == 0 then 0 else if k < |stsc| then last - 1 else entries;
                && (k < |stsc| ==> sample == First32(stsc, done))
                && forall c :: 0 <= c < table.Length ==>
                     table[c] == if c < done then First32(stsc, c) else 0
    {
      var first, samples := stsc[k].first, stsc[k].samples;
      if last > 0 {
        forall c | last - 1 <= c < first - 1
          ensures PerChunk(stsc, c) == lastSamples
        {
          RunApplies(stsc, entries, k - 1, c);
        }
        sample := FillRun(table, last - 1, first - 1, sample, lastSamples, stsc);
      }
      if k == |stsc| - 1 {
        forall c | first - 1 <= c < entries
          ensures PerChunk(stsc, c) == samples
        {
          RunApplies(stsc, entries, k, c);
        }
        sample := FillRun(table, first - 1, entries, sample, samples, stsc);
      }
      last := first;
      lastSamples := samples;
      k := k + 1;
    }
  }

  // With at least one sample per chunk the table starts at 0 and strictly increases, as long as the
  // samples can be counted in 32 bits: what the reader needs to tell the end of a chunk.
  lemma {:induction false} FirstsIncrease(stsc: seq<Run>, c: nat, d: nat)
    requires stsc != [] && stsc[0].first == 1 && (forall i :: 0 <= i < |stsc| ==> stsc[i].samples >= 1)
    requires c < d && FirstSample(stsc, d) < WORD
    ensures First32(stsc, 0) == 0 && First32(stsc, c) < First32(stsc, d)
    decreases d
  {
    SomeSamples(stsc, d - 1);
    if c < d - 1 {
      FirstsIncrease(stsc, c, d - 1);
    }
  }

  lemma {:induction false} SomeSamples(stsc: seq<Run>, c: nat)
    requires stsc != [] && stsc[0].first == 1 && (forall i :: 0 <= i < |stsc| ==> stsc[i].samples >= 1)
    ensures PerChunk(stsc, c) >= 1
    decreases |stsc|
  {
    if |stsc| > 1 {
      SomeSamples(stsc[..|stsc| - 1], c);
    }
  }
}
