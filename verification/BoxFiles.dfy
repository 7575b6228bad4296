/** Files as a writer lays them out, box behind box, and what read_mp4_header of
    components/squeezelite/alac.c makes of them. */
module BoxFiles {
  import opened AlacTrack
  import opened BigEndian
  import opened BoxPolls
  import opened BoxTables
  import opened BoxWalk
  import opened ChunkTable
  import opened Memory
  import opened StreamFifo
  import opened Wrappers

  function Letters(name: string): (s: seq<byte>)
    requires |name| == 4 && forall i :: 0 <= i < 4 ==> name[i] < 128 as char
    ensures |s| == 4
  {
    seq(4, i requires 0 <= i < 4 => name[i] as int as byte)
  }

  predicate Named(name: string) {
    |name| == 4 && forall i :: 0 <= i < 4 ==> name[i] < 128 as char
  }

  // A box: its length, its name and its payload.
  function Box(name: string, payload: seq<byte>): (b: seq<byte>)
    requires Named(name)
    ensures |b| == 8 + |payload|
  {
    BE(4, 8 + |payload|) + Letters(name) + payload
  }

  // The reader sees the length and the name that were written.
  lemma BoxHead(name: string, payload: seq<byte>)
    requires Named(name) && 8 + |payload| < Range(4)
    ensures var head := Box(name, payload)[..8];
            LenOf(head) == 8 + |payload| && KindIn(head) == KindOf(name)
  {
    var b := Box(name, payload);
    var head := b[..8];
    ReadWritten(4, 8 + |payload|);
    hide BE, ReadBE, KindOf, Range;
    assert head[..4] == BE(4, 8 + |payload|);
    assert forall i :: 0 <= i < 4 ==> head[4 + i] == Letters(name)[i];
    assert seq(4, i requires 0 <= i < 4 => head[4 + i] as int as char) == name;
  }

  // ... and the words of the payload.
  lemma PayloadWord(name: string, payload: seq<byte>, at: nat)
    requires Named(name) && at + 4 <= |payload|
    ensures Word(Box(name, payload), 8 + at) == ReadBE(payload[at..at + 4])
  {
    hide BE, ReadBE;
    assert Box(name, payload)[8 + at..12 + at] == payload[at..at + 4];
  }

  function Join(boxes: seq<seq<byte>>): seq<byte> {
    if boxes == [] then [] else Join(boxes[..|boxes| - 1]) + boxes[|boxes| - 1]
  }

  // The reader steps over the box to its end: it is no container with something inside.
  ghost predicate Plain(b: seq<byte>) {
    && |b| >= 8 && LenOf(b[..8]) == |b| && KindIn(b[..8]) != Mdat
    && StepOver(KindIn(b[..8]), |b|) == |b|
  }

  ghost predicate AllPlain(boxes: seq<seq<byte>>) {
    forall i :: 0 <= i < |boxes| ==> Plain(boxes[i])
  }

  lemma {:induction false} JoinPrefix(boxes: seq<seq<byte>>, n: nat)
    requires n <= |boxes|
    ensures Join(boxes[..n]) <= Join(boxes)
    ensures n < |boxes| ==> |Join(boxes[..n])| + |boxes[n]| <= |Join(boxes)|
                            && Join(boxes)[|Join(boxes[..n])|..|Join(boxes[..n])| + |boxes[n]|] == boxes[n]
    decreases |boxes|
  {
    if n == |boxes| {
      assert boxes[..n] == boxes;
    } else {
      var m := |boxes| - 1;
      assert boxes[..m][..n] == boxes[..n];
      JoinPrefix(boxes[..m], n);
      if n < m {
        assert boxes[..m][n] == boxes[n];
      }
    }
  }

  lemma StillThere(head: seq<byte>, rest: seq<byte>, p: nat, b: seq<byte>)
    requires p + |b| <= |head| && head[p..p + |b|] == b && |b| >= 8
    ensures (head + rest)[p..p + |b|] == b && (head + rest)[p..p + 8] == b[..8]
  {
    assert (head + rest)[p..p + |b|] == b;
    assert b[..8] == (head + rest)[p..p + |b|][..8];
  }

  // Boxes start one behind the other.
  lemma {:induction false} Lined(boxes: seq<seq<byte>>, rest: seq<byte>, n: nat)
    requires AllPlain(boxes) && n <= |boxes|
    ensures var file := Join(boxes) + rest;
            && BoxStart(file, n) == |Join(boxes[..n])|
            && (n < |boxes| ==>
                  && BoxStart(file, n) + |boxes[n]| <= |file|
                  && HeadAt(file, BoxStart(file, n)) == boxes[n][..8]
                  && BodyAt(file, BoxStart(file, n)) == boxes[n])
    decreases n
  {
    hide LenOf, KindIn, StepOver;
    var file := Join(boxes) + rest;
    if n > 0 {
      Lined(boxes, rest, n - 1);
      assert Plain(boxes[n - 1]);
      assert boxes[..n][..n - 1] == boxes[..n - 1];
    }
    JoinPrefix(boxes, n);
    if n < |boxes| {
      var p := |Join(boxes[..n])|;
      assert Plain(boxes[n]);
      StillThere(Join(boxes), rest, p, boxes[n]);
    }
  }

  // What a reader that sees every box whole remembers.
  ghost function VisitAll(boxes: seq<seq<byte>>): Header
    requires forall i :: 0 <= i < |boxes| ==> |boxes[i]| >= 8
  {
    if boxes == [] then NO_HEADER
    else
      var b := boxes[|boxes| - 1];
      Visit(VisitAll(boxes[..|boxes| - 1]), KindIn(b[..8]), true, b)
  }

  // Reading a file that was written box by box gives the boxes.
  lemma {:induction false} HeaderIs(boxes: seq<seq<byte>>, rest: seq<byte>, n: nat)
    requires AllPlain(boxes) && n <= |boxes|
    ensures HeaderOf(Join(boxes) + rest, n) == VisitAll(boxes[..n])
    decreases n
  {
    hide Visit, KindIn, LenOf, StepOver;
    if n > 0 {
      HeaderIs(boxes, rest, n - 1);
      Lined(boxes, rest, n - 1);
      assert seq(n, i => true)[..n - 1] == seq(n - 1, i => true);
      assert boxes[..n][..n - 1] == boxes[..n - 1];
    }
  }

  // One call that finds everything up to the media data in one piece reads every box and stops at it,
  // or at the first chunk if that is there too.
  lemma ScanToData(boxes: seq<seq<byte>>, rest: seq<byte>, size: nat, s: Spot, bytes: nat, grant: Grant)
    requires AllPlain(boxes) && |rest| >= 8 && KindIn(rest[..8]) == Mdat && VisitAll(boxes).play > 0
    requires Ready(Join(boxes) + rest, size, s) && s.consume == 0 && bytes <= Seen(s, size) && Bounded(grant)
    requires s.whole == [] && s.pos + bytes >= |Join(boxes)| + 8
    ensures var t := Scan(Join(boxes) + rest, size, s, bytes, grant);
            var q := DataStart(VisitAll(boxes), |Join(boxes)|);
            && t.whole == seq(|boxes|, i => true) && t.found == Data && t.arrived == s.arrived
            && t.pos == if q <= s.pos + bytes then q else |Join(boxes)| + 8
  {
    hide KindIn, LenOf, StepOver, Waits, Visit, DataStart, Scan, Seen, Join, BoxStart;
    var file := Join(boxes) + rest;
    forall n | 0 <= n < |boxes|
      ensures Passable(file, n) && End(file, n) < s.pos + bytes
    {
      Lined(boxes, rest, n);
      JoinPrefix(boxes, n);
      assert Plain(boxes[n]);
    }
    Lined(boxes, rest, |boxes|);
    assert boxes[..|boxes|] == boxes;
    HeaderIs(boxes, rest, |boxes|);
    assert HeadAt(file, |Join(boxes)|) == rest[..8];
    ScanThrough(file, size, s, bytes, grant, |boxes|);
  }
}
