/** components/squeezelite/decode_external.c: the writer that Bluetooth and AirPlay share.
    Frames are 4 bytes (BYTES_PER_FRAME == 4), so samples are copied as they come. */
module SinkHandler {
  import opened Memory
  import opened StreamFifo

  // How often the handler waits for the output to drain before it drops frames.
  const PATIENCE := 5

  // How one call ended: bytes stored, bytes the output read meanwhile, waits left, abort seen.
  datatype Outcome = Outcome(stored: nat, drained: nat, patience: nat, stopped: bool)

  // What is left of `before` with `put` behind it once `drained` bytes have been read.
  ghost function Kept(before: seq<byte>, put: seq<byte>, drained: nat): (s: seq<byte>)
    requires drained <= |before| + |put|
    ensures |s| == |before| + |put| - drained
  {
    (before + put)[drained..]
  }

  function Sum(ns: seq<nat>): nat {
    if ns == [] then 0 else Sum(ns[..|ns| - 1]) + ns[|ns| - 1]
  }

  // The handler slept with stops[k] bytes stored: data was left, and no byte of room. Then the output read
  // reads'[k], as many as it wanted and there were.
  ghost predicate Slept(size: nat, before: nat, data: nat, stops: seq<nat>, reads': seq<nat>, drains: nat -> nat) {
    && |stops| == |reads'|
    && forall k :: 0 <= k < |stops| ==>
         && stops[k] < data && before + stops[k] - Sum(reads'[..k]) == size - 1
         && reads'[k] == Min(drains(k), size - 1)
  }

  lemma SleptMore(size: nat, before: nat, data: nat, stops: seq<nat>, reads': seq<nat>, drains: nat -> nat,
                  stored: nat, m: nat)
    requires Slept(size, before, data, stops, reads', drains)
    requires stored < data && before + stored - Sum(reads') == size - 1 && m == Min(drains(|stops|), size - 1)
    ensures Slept(size, before, data, stops + [stored], reads' + [m], drains)
    ensures Sum(reads' + [m]) == Sum(reads') + m
  {
    var more := reads' + [m];
    assert more[..|reads'|] == reads';
    forall k | 0 <= k < |stops|
      ensures more[..k] == reads'[..k]
    {
    }
  }

  // One pass of the loop: store as much as fits before the wrap and, when that leaves data but
  // no room, sleep once while the output reads up to `want` bytes.
  method Pass(buf: StreamBuffer, data: seq<byte>, stored: nat, want: nat)
      returns (n: nat, slept: bool, m: nat)
    requires buf.Valid() && stored < |data|
    modifies buf`readp, buf`writep, buf.data
    ensures buf.Valid() && !buf.Parked()
    ensures stored + n <= |data| && n <= old(buf.Space()) && m <= |old(buf.Contents())| + n
    ensures slept <==> stored + n < |data| && n == old(buf.Space())
    ensures n == 0 ==> slept || old(buf.Parked())
    ensures buf.size == old(buf.size) && m == if slept then Min(want, buf.size - 1) else 0
    ensures buf.Contents() == (old(buf.Contents()) + data[stored..stored + n])[m..]
  {
    hide Ring;
    n := Min(|data| - stored, buf.Room());
    buf.Append(data[stored..stored + n]);
    var space := buf.Space();
    slept := stored + n < |data| && space == 0;
    m := 0;
    if slept {
      m := Min(want, buf.Used());
      buf.IncReadp(m);
    }
  }

  // sink_data_handler. While the handler sleeps for the k-th time the output may read up to
  // drains(k) bytes; aborted(k) says whether abort_sink is up at the k-th test of the loop.
  // Under every such interleaving the handler stops, and what it stored is a prefix of the
  // data, in order, behind everything the output has not read yet. It sleeps only with the buffer full and
  // data left, stored[k] bytes into it, and gives up after five sleeps and no sooner; drained[k] is what the
  // output read meanwhile.
  method SinkDataHandler(buf: StreamBuffer, external: bool, data: seq<byte>,
                         drains: nat -> nat, aborted: nat -> bool)
      returns (o: Outcome, ghost stops: seq<nat>, ghost reads': seq<nat>)
    requires buf.Valid()
    modifies buf, buf.data
    ensures buf.Valid() && buf.size == old(buf.size)
    ensures o.stored <= |data| && o.patience <= PATIENCE
    ensures o.drained <= |old(buf.Contents())| + o.stored
    ensures buf.Contents() == Kept(old(buf.Contents()), data[..o.stored], o.drained)
    ensures !external ==> o == Outcome(0, 0, PATIENCE, false)
    ensures external ==> o.stored == |data| || o.patience == 0 || o.stopped
    ensures o.stopped ==> exists k: nat :: aborted(k)
    ensures |stops| == |reads'| == PATIENCE - o.patience && PATIENCE == 5 && o.drained == Sum(reads')
    ensures Slept(buf.size, |old(buf.Contents())|, |data|, stops, reads', drains)
    ensures external && !o.stopped && |data| <= old(buf.Space()) ==>
              o.stored == |data| && o.patience == PATIENCE && o.drained == 0
  {
    hide Kept, Sum, Slept, StreamFifo.Ring, StreamBuffer.ContWrite, StreamBuffer.Shape;
    var len: nat, wait: nat, stored: nat, drained: nat := |data|, PATIENCE, 0, 0;
    var tests: nat, sleeps: nat := 0, 0;
    ghost var before := buf.Contents();
    KeptNothing(before, data);
    NothingSlept(buf.size, |before|, |data|, drains);
    stops, reads' := [], [];
    if !external {
      return Outcome(0, 0, wait, false), [], [];
    }
    while len != 0 && wait != 0 && !aborted(tests)
      invariant buf.Valid() && buf.size == old(buf.size)
      invariant stored + len == |data| && wait <= PATIENCE
      invariant drained <= |before| + stored && drained == Sum(reads')
      invariant |stops| == |reads'| == sleeps == PATIENCE - wait
      invariant Slept(buf.size, |before|, |data|, stops, reads', drains)
      invariant buf.Contents() == Kept(before, data[..stored], drained)
      invariant |data| <= old(buf.Space()) ==> wait == PATIENCE && drained == 0 && len <= buf.Space()
      decreases wait, len, if buf.Parked() then 1 else 0
    {
      tests := tests + 1;
      var n, slept, m := Pass(buf, data, stored, drains(sleeps));
      KeptStep(before, data, stored, n, drained, m);
      stored := stored + n;
      len := len - n;
      drained := drained + m;
      if slept {
        SleptMore(buf.size, |before|, |data|, stops, reads', drains, stored, m);
        stops, reads' := stops + [stored], reads' + [m];
        wait := wait - 1;
        sleeps := sleeps + 1;
      }
    }
    o := Outcome(stored, drained, wait, len != 0 && wait != 0);
  }

  lemma NothingSlept(size: nat, before: nat, data: nat, drains: nat -> nat)
    ensures Slept(size, before, data, [], [], drains) && Sum([]) == 0
  {
  }

  lemma KeptNothing(before: seq<byte>, data: seq<byte>)
    ensures Kept(before, data[..0], 0) == before
  {
  }

  lemma KeptStep(before: seq<byte>, data: seq<byte>, stored: nat, n: nat, drained: nat, m: nat)
    requires stored + n <= |data| && drained <= |before| + stored
    requires drained + m <= |before| + stored + n
    ensures (Kept(before, data[..stored], drained) + data[stored..stored + n])[m..]
         == Kept(before, data[..stored + n], drained + m)
  {
    assert data[..stored + n] == data[..stored] + data[stored..stored + n];
  }
}
