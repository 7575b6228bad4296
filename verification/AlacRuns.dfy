/** Small files and schedules on which read_mp4_header and alac_decode of
    components/squeezelite/alac.c go wrong, each from a new reader. */
module AlacRuns {
  import opened AlacReader
  import opened AlacTrack
  import opened BigEndian
  import opened BoxFiles
  import opened BoxPolls
  import opened BoxRoom
  import opened BoxTables
  import opened BoxWalk
  import opened ChunkTable
  import opened Memory
  import opened StreamFifo
  import opened Wrappers

  function Zeros(n: nat): (z: seq<byte>)
    ensures |z| == n
  {
    seq(n, i => 0)
  }

  // A box written with a name that is no container's.
  lemma PlainBox(name: string, payload: seq<byte>)
    requires Named(name) && 8 + |payload| < Range(4)
    requires KindOf(name) in {Alac, Stsz, Stsc, Stco, Other} || (KindOf(name) == Trak && payload == [])
    ensures Plain(Box(name, payload)) && KindIn(Box(name, payload)[..8]) == KindOf(name)
  {
    BoxHead(name, payload);
    hide LenOf, KindIn, KindOf, Box;
  }

  // A file of plain boxes and one more box is sane.
  lemma SaneFile(boxes: seq<seq<byte>>, rest: seq<byte>)
    requires AllPlain(boxes) && |rest| >= 8 && LenOf(rest[..8]) == |rest|
    requires StepOver(KindIn(rest[..8]), |rest|) == |rest|
    ensures Sane(Join(boxes) + rest)
  {
    hide LenOf, KindIn, StepOver;
    var file := Join(boxes) + rest;
    var m := |boxes|;
    Lined(boxes, rest, m);
    assert boxes[..m] == boxes;
    assert HeadAt(file, |Join(boxes)|) == rest[..8];
    assert BoxStart(file, m + 1) == |file|;
    forall n: nat | BoxStart(file, n) + 8 <= |file|
      ensures LenOf(HeadAt(file, BoxStart(file, n))) >= 8
    {
      if n < m {
        Lined(boxes, rest, n);
        assert Plain(boxes[n]);
      } else if n > m {
        StartsGrow(file, m + 1, n);
      }
    }
  }

  // A reader at the first byte of a file, with nothing delivered.
  const FIRST: Spot := Spot([], 0, 0, 0, Ends(0, 0), More)

  // No memory for anything.
  function Refuse(t: nat): Grant {
    (c: nat, m: nat) => false
  }

  lemma Refused()
    ensures AllBounded(Refuse)
  {
  }

  lemma FirstReady(file: seq<byte>, size: nat)
    requires 0 < size < MAX_BLOCK
    ensures Ready(file, size, FIRST)
  {
    hide BoxStart;
    NoBoxYet(file, 0);
  }

  lemma NoBoxYet(file: seq<byte>, n: nat)
    requires n == 0
    ensures BoxStart(file, n) == 0
  {
  }

  // Less than the buffer's size is delivered at once.
  lemma FirstFed(file: seq<byte>, size: nat, n: nat)
    requires n < size < MAX_BLOCK && n <= |file|
    ensures Ready(file, size, FIRST) && Fed(file, size, FIRST, n) == Spot([], 0, 0, n, Ends(0, n), More)
    ensures Seen(Fed(file, size, FIRST, n), size) == n
  {
    hide BoxStart;
    FirstReady(file, size);
  }

  // A call that goes over the first box and finds less than a header behind it.
  lemma OverFirst(box: seq<byte>, rest: seq<byte>, size: nat, n: nat)
    requires Plain(box) && |box| <= n < |box| + 8 && n < size < MAX_BLOCK && n <= |box| + |rest|
    ensures Ready(box + rest, size, FIRST) && AllBounded(Refuse)
    ensures After(box + rest, size, FIRST, [Feed(n), Poll(true)], Refuse)
         == Spot([n > |box|], |box|, 0, n, Ends(|box|, n), More)
    ensures BoxStart(box + rest, 1) == |box| && BoxStart(box + rest, 0) == 0 && HeadAt(box + rest, 0) == box[..8]
    ensures BodyAt(box + rest, 0) == box
  {
    hide KindIn, LenOf, Scan, After, Fed, StepOver, Seen, BoxStart;
    var file := box + rest;
    Refused();
    FirstFed(file, size, n);
    JoinOne(box);
    assert AllPlain([box]);
    Lined([box], rest, 0);
    Lined([box], rest, 1);
    assert [box][..0] == [] && [box][..1] == [box];
    Two(file, size, FIRST, Feed(n), Poll(true), Refuse);
    var s := Fed(file, size, FIRST, n);
    ScanOver(file, size, s, n, Refuse(1));
    var t := Over(file, size, s, |box|, 0, n > |box|);
    OverReady(file, size, s, |box|, 0, n > |box|);
    ScanEnds(file, size, t, n - |box|, Refuse(1));
  }

  // A sizes box of twenty bytes and a box behind it. The first call finds n bytes: the sizes are lost
  // exactly when it finds the twenty and no more.
  method LostBox(n: nat) returns (sized: bool, passed: nat)
    requires 20 <= n < 28
    ensures passed == 20 && (sized <==> n > 20)
  {
    hide BE, ReadBE, Box, KindIn, LenOf, Plain, SizesBox, SizesIn, Sane, After, BoxStart;
    hide Ring, Reader.Synced, Reader.Held, Reader.AtData, StreamBuffer.Valid, StreamBuffer.Shape;
    var box, rest := SizesBox(4, 1), Box("free", []);
    LostFile(box, rest);
    SizesRead(4, 1, NO_TRACK);
    OverFirst(box, rest, 64, n);
    var buf := new StreamBuffer(64);
    var r := new Reader(buf, box + rest);
    r.PlaceReady();
    var found, used := r.Open([Feed(n), Poll(true)], Refuse);
    sized, passed := r.header.sized, r.pos;
    assert r.whole == [n > 20];
    assert [n > 20][..0] == [];
  }

  lemma FreeBox(payload: seq<byte>)
    requires 8 + |payload| < Range(4)
    ensures var b := Box("free", payload);
            Plain(b) && LenOf(b[..8]) == |b| == 8 + |payload| && StepOver(KindIn(b[..8]), |b|) == |b|
            && KindIn(b[..8]) == Other
  {
    hide LenOf, KindIn, Box, StepOver;
    PlainBox("free", payload);
  }

  lemma LostFile(box: seq<byte>, rest: seq<byte>)
    requires box == SizesBox(4, 1) && rest == Box("free", [])
    ensures Sane(box + rest) && |box| == 20 && |rest| == 8
  {
    hide BE, ReadBE, Box, KindIn, LenOf, StepOver, Plain, SizesBox, Sane, SizesIn, Range;
    FourBytes();
    SizesRead(4, 1, NO_TRACK);
    FreeBox([]);
    JoinOne(box);
    assert AllPlain([box]);
    SaneFile([box], rest);
  }

  lemma FourBytes()
    ensures Range(4) == 0x1_0000_0000
  {
  }

  lemma JoinOne(box: seq<byte>)
    ensures Join([box]) == box
  {
    assert [box][..0] == [];
  }

  // A sizes box: every sample has the same size.
  function SizesBox(size: nat, count: nat): seq<byte> {
    Box("stsz", Zeros(4) + BE(4, size) + BE(4, count))
  }

  lemma SizesRead(size: nat, count: nat, t: Track)
    requires 0 < size < Range(4) && count < Range(4)
    ensures Plain(SizesBox(size, count)) && KindIn(SizesBox(size, count)[..8]) == Stsz && |SizesBox(size, count)| == 20
    ensures SizesIn(SizesBox(size, count), t) == Some(t.(defaultSize := size, total := count))
  {
    hide BE, ReadBE, Box, KindIn, LenOf, Plain, Range, Word;
    FourBytes();
    PlainBox("stsz", Zeros(4) + BE(4, size) + BE(4, count));
    SizesWords(size, count);
  }

  lemma SizesWords(size: nat, count: nat)
    requires size < Range(4) && count < Range(4)
    ensures var b := SizesBox(size, count);
            |b| == 20 && Word(b, 12) == size && Word(b, 16) == count
  {
    hide BE, ReadBE, Box, Word, Range;
    var payload := Zeros(4) + BE(4, size) + BE(4, count);
    Parts(Zeros(4), BE(4, size), BE(4, count));
    PayloadWord("stsz", payload, 4);
    PayloadWord("stsz", payload, 8);
    ReadWritten(4, size);
    ReadWritten(4, count);
  }

  lemma Parts(a: seq<byte>, b: seq<byte>, c: seq<byte>)
    ensures var s := a + b + c;
            s[|a|..|a| + |b|] == b && s[|a| + |b|..|a| + |b| + |c|] == c
  {
  }

  // A box of 44 bytes, a sizes box that ends at the wrap of a buffer of 64, and more behind it.
  function WrapFile(rest: seq<byte>): seq<byte> {
    Box("free", Zeros(36)) + SizesBox(4, 1) + rest
  }

  lemma WrapBoxes(rest: seq<byte>)
    ensures var file := WrapFile(rest);
            && |file| == 64 + |rest| && BoxStart(file, 0) == 0 && BoxStart(file, 1) == 44 && BoxStart(file, 2) == 64
            && Passable(file, 0) && KindAt(file, 0) == Other && LenAt(file, 0) == 44
            && Passable(file, 1) && KindAt(file, 1) == Stsz && LenAt(file, 1) == 20
  {
    hide BE, ReadBE, Box, KindIn, LenOf, SizesIn, Range;
    FourBytes();
    var box, sizes := Box("free", Zeros(36)), SizesBox(4, 1);
    FreeBox(Zeros(36));
    SizesRead(4, 1, NO_TRACK);
    hide SizesBox;
    var boxes := [box, sizes];
    JoinOne(box);
    assert boxes[..2] == boxes && boxes[..1] == [box] && boxes[..0] == [];
    assert Join(boxes) == box + sizes;
    Lined(boxes, rest, 0);
    Lined(boxes, rest, 1);
    Lined(boxes, rest, 2);
  }

  // A call that finds 63 bytes leaves the sizes box next, with just its length in front of the wrap ...
  const ATWRAP: Spot := Spot([true], 44, 0, 63, Ends(44, 63), More)

  lemma WrapFirst(rest: seq<byte>)
    ensures Ready(WrapFile(rest), 64, FIRST) && AllBounded(Refuse)
    ensures After(WrapFile(rest), 64, FIRST, [Feed(63), Poll(true)], Refuse) == ATWRAP
    ensures Pending(WrapFile(rest), 64, ATWRAP, 1)
  {
    hide KindIn, LenOf, Scan, After, Fed, WrapFile, BoxStart, Straightened, Visited, Next;
    var file := WrapFile(rest);
    Refused();
    WrapBoxes(rest);
    FirstFed(file, 64, 63);
    Two(file, 64, FIRST, Feed(63), Poll(true), Refuse);
    WrapScan(rest);
    FeedIs(file, 64, FIRST, 63, Refuse(0));
    PollIs(file, 64, Fed(file, 64, FIRST, 63), true, Refuse(1));
  }

  lemma FeedIs(file: seq<byte>, size: nat, s: Spot, n: nat, grant: Grant)
    requires Ready(file, size, s) && Bounded(grant)
    ensures Next(file, size, s, Feed(n), grant) == Fed(file, size, s, n)
  {
    hide Scan, Fed;
  }

  lemma PollIs(file: seq<byte>, size: nat, s: Spot, connected: bool, grant: Grant)
    requires Ready(file, size, s) && Bounded(grant) && s.consume == 0
    ensures Next(file, size, s, Poll(connected), grant) == Scan(file, size, s, Seen(s, size), grant)
  {
    hide Scan, Fed;
  }

  lemma WrapScan(rest: seq<byte>)
    ensures var s := Spot([], 0, 0, 63, Ends(0, 63), More);
            && Ready(WrapFile(rest), 64, s) && Bounded(Refuse(1)) && Seen(s, 64) == 63
            && Scan(WrapFile(rest), 64, s, 63, Refuse(1)) == ATWRAP && Ready(WrapFile(rest), 64, ATWRAP)
  {
    hide KindIn, LenOf, Scan, Fed, WrapFile, BoxStart, Visited, Over, CutOff, Proper;
    var file := WrapFile(rest);
    Refused();
    WrapBoxes(rest);
    FirstFed(file, 64, 63);
    var s := Spot([], 0, 0, 63, Ends(0, 63), More);
    ScanOver(file, 64, s, 63, Refuse(1));
    OverIs(file, 64, s, 44, true, ATWRAP);
    ScanCuts(file, 64, ATWRAP, 19, Refuse(1));
    WrapCut(file);
  }

  lemma WrapCut(file: seq<byte>)
    requires Ready(file, 64, ATWRAP) && Bounded(Refuse(1))
    ensures CutOff(file, 64, ATWRAP, 19, Stsz, 20, Refuse(1)) == ATWRAP
  {
    hide Straightened, Over, Proper;
    RoomEnough(ATWRAP.ends, 64, 20, Refuse(1));
  }

  lemma RoomEnough(p: Ends, size: nat, cont: nat, grant: Grant)
    requires InRing(p, size) && cont <= size - p.readp && Bounded(grant)
    ensures !UndefinedAt(p, size, cont, 1, grant) && Straightened(p, size, cont, 1, grant) == p
  {
  }

  // ... and so the sizes are lost, whatever the schedule and whatever memory there is.
  lemma LostBehindWrap(rest: seq<byte>, events: seq<Event>, grants: nat -> Grant)
    requires AllBounded(grants)
    ensures Pending(WrapFile(rest), 64, ATWRAP, 1)
    ensures var t := After(WrapFile(rest), 64, ATWRAP, events, grants);
            |t.whole| > 1 ==> !t.whole[1]
  {
    hide KindIn, LenOf, After, WrapFile, BoxStart;
    WrapFirst(rest);
    WrapBoxes(rest);
    if |After(WrapFile(rest), 64, ATWRAP, events, grants).whole| > 1 {
      RoomDecides(WrapFile(rest), 64, ATWRAP, events, grants, 1);
    }
  }

  // One such schedule: the calls find 63 and 72 bytes delivered, neither of them the end of the sizes box.
  method LostAtWrap(rest: seq<byte>) returns (sized: bool, passed: nat)
    requires |rest| >= 8 && Sane(WrapFile(rest))
    ensures passed == 64 && !sized
  {
    hide KindIn, LenOf, Sane, After, BoxStart, WrapFile, Visited;
    hide Ring, Reader.Synced, Reader.Held, Reader.AtData, StreamBuffer.Valid, StreamBuffer.Shape;
    WrapFirst(rest);
    WrapLast(rest);
    NothingSized(rest);
    var buf := new StreamBuffer(64);
    var r := new Reader(buf, WrapFile(rest));
    r.PlaceReady();
    var found, used := r.Open([Feed(63), Poll(true)], Refuse);
    r.PlaceReady();
    found, used := r.Open([Feed(1), Feed(8), Poll(true)], Refuse);
    sized, passed := r.header.sized, r.pos;
  }

  lemma WrapLast(rest: seq<byte>)
    requires |rest| >= 8
    ensures Ready(WrapFile(rest), 64, ATWRAP) && AllBounded(Refuse)
    ensures After(WrapFile(rest), 64, ATWRAP, [Feed(1), Feed(8), Poll(true)], Refuse)
         == Spot([true, false], 64, 0, 72, Ends(0, 8), More)
  {
    hide KindIn, LenOf, Scan, After, WrapFile, BoxStart, Straightened, Visited, Next, Fed, Over, Proper;
    var file := WrapFile(rest);
    Refused();
    WrapScan(rest);
    WrapFed(rest);
    WrapOver(rest);
    var events := [Feed(1), Feed(8), Poll(true)];
    Two(file, 64, ATWRAP, Feed(1), Feed(8), Refuse);
    assert events[..2] == [Feed(1), Feed(8)] && events[..3] == events;
    AfterOne(file, 64, ATWRAP, events, Refuse, 2);
    FeedIs(file, 64, ATWRAP, 1, Refuse(0));
    FeedIs(file, 64, Fed(file, 64, ATWRAP, 1), 8, Refuse(1));
    PollIs(file, 64, BEHIND, true, Refuse(2));
  }

  const BEHIND: Spot := Spot([true], 44, 0, 72, Ends(44, 8), More)

  lemma WrapFed(rest: seq<byte>)
    requires |rest| >= 8 && Ready(WrapFile(rest), 64, ATWRAP)
    ensures Fed(WrapFile(rest), 64, Fed(WrapFile(rest), 64, ATWRAP, 1), 8) == BEHIND
    ensures Ready(WrapFile(rest), 64, BEHIND) && Seen(BEHIND, 64) == 20
  {
    hide KindIn, LenOf, WrapFile, BoxStart, Straightened, Visited;
    WrapBoxes(rest);
  }

  lemma WrapOver(rest: seq<byte>)
    requires |rest| >= 8 && Ready(WrapFile(rest), 64, BEHIND) && Seen(BEHIND, 64) == 20 && Bounded(Refuse(2))
    ensures Scan(WrapFile(rest), 64, BEHIND, 20, Refuse(2)) == Spot([true, false], 64, 0, 72, Ends(0, 8), More)
  {
    hide KindIn, LenOf, Scan, WrapFile, BoxStart, Straightened, Visited, Over, Proper;
    var file := WrapFile(rest);
    WrapBoxes(rest);
    ScanOver(file, 64, BEHIND, 20, Refuse(2));
    OverIs(file, 64, BEHIND, 20, false, Spot([true, false], 64, 0, 72, Ends(0, 8), More));
    ScanEnds(file, 64, Over(file, 64, BEHIND, 20, 0, false), 0, Refuse(2));
  }

  lemma OverIs(file: seq<byte>, size: nat, s: Spot, n: nat, flag: bool, t: Spot)
    requires Ready(file, size, s) && n <= Waiting(s)
    requires t == Spot(s.whole + [flag], s.pos + n, 0, s.arrived, Ends(At(s.ends.readp, size, n), s.ends.writep), More)
    ensures Over(file, size, s, n, 0, flag) == t
  {
    hide BoxStart, Span;
  }

  lemma NothingSized(rest: seq<byte>)
    ensures !Visited(WrapFile(rest), [true, false]).sized
  {
    hide KindIn, LenOf, WrapFile, BoxStart;
    WrapBoxes(rest);
    assert Visited(WrapFile(rest), []) == NO_HEADER;
    assert [true, false][..1] == [true] && [true][..0] == [];
  }

  // ---------------------------------------------------------------- a header that is never read

  // A box that ends four bytes before the wrap: the header of the next one is there, four bytes in front of
  // the wrap and four behind it, and whatever else happens the reader stays in front of it.
  method Stalled(events: seq<Event>, grants: nat -> Grant) returns (passed: nat, delivered: nat)
    requires AllBounded(grants)
    ensures passed == 28 && delivered >= 36
  {
    hide BE, Box, KindIn, LenOf, Plain, Sane, After, BoxStart, Visited, HeadAt;
    hide Ring, Reader.Synced, Reader.Held, Reader.AtData, StreamBuffer.Valid, StreamBuffer.Shape;
    var box, rest := Box("free", Zeros(20)), Box("free", Zeros(22));
    StallFile(box, rest);
    OverFirst(box, rest, 32, 31);
    var buf := new StreamBuffer(32);
    var r := new Reader(buf, box + rest);
    r.PlaceReady();
    var found, used := r.Open([Feed(31), Poll(true)], Refuse);
    r.PlaceReady();
    found := r.HandleHeader(Feed(8), Refuse(0));
    r.PlaceReady();
    found := r.HandleHeader(Feed(8), Refuse(0));
    r.PlaceReady();
    StaysStuck(r.file, 32, r.Place(More), events, grants);
    found, used := r.Open(events, grants);
    passed, delivered := r.pos, r.arrived;
  }

  lemma StallFile(box: seq<byte>, rest: seq<byte>)
    requires box == Box("free", Zeros(20)) && rest == Box("free", Zeros(22))
    ensures Sane(box + rest) && |box| == 28 && |rest| == 30 && Plain(box)
  {
    hide BE, ReadBE, Box, KindIn, LenOf, StepOver, Plain, Sane, Range;
    FourBytes();
    FreeBox(Zeros(20));
    FreeBox(Zeros(22));
    JoinOne(box);
    assert AllPlain([box]);
    SaneFile([box], rest);
  }

  // A table as long as the buffer: room for it is never asked for, and it is never there.
  method NeverThere(events: seq<Event>, grants: nat -> Grant) returns (passed: nat)
    requires AllBounded(grants)
    ensures passed == 0
  {
    hide BE, Box, KindIn, LenOf, Plain, Sane, After, BoxStart, Visited, Stuck, Proper, Zeros;
    hide Ring, Reader.Synced, Reader.Held, Reader.AtData, StreamBuffer.Valid, StreamBuffer.Shape;
    var file := Box("stts", Zeros(24));
    TableFile(file);
    var buf := new StreamBuffer(32);
    var r := new Reader(buf, file);
    r.PlaceReady();
    StaysStuck(file, 32, FIRST, events, grants);
    var found, used := r.Open(events, grants);
    passed := r.pos;
  }

  lemma TableFile(file: seq<byte>)
    requires file == Box("stts", Zeros(24))
    ensures Sane(file) && |file| == 32 && BoxStart(file, 0) == 0
    ensures Ready(file, 32, FIRST) && Stuck(file, 32, FIRST)
  {
    hide BE, ReadBE, Box, KindIn, LenOf, Sane, Range, BoxStart;
    FourBytes();
    NoBoxYet(file, 0);
    BoxHead("stts", Zeros(24));
    assert HeadAt(file, 0) == file[..8];
    assert Join([]) + file == file;
    SaneFile([], file);
    FirstReady(file, 32);
    AtFirst(file);
  }

  lemma AtFirst(file: seq<byte>)
    requires |file| == 32 && BoxStart(file, 0) == 0
    requires KindIn(HeadAt(file, 0)) == Stts && LenOf(HeadAt(file, 0)) == 32
    ensures Stuck(file, 32, FIRST)
  {
    hide BoxStart, KindIn, LenOf;
  }

  // ---------------------------------------------------------------- a wrong block, and wrong sizes

  // The boxes of a track with one sample of four bytes at this offset.
  function OneSample(offset: nat): seq<seq<byte>> {
    [Box("trak", []), Box("alac", Zeros(28)), SizesBox(4, 1),
     Box("stsc", Zeros(4) + BE(4, 1) + BE(4, 1) + BE(4, 1) + BE(4, 1)),
     Box("stco", Zeros(4) + BE(4, 1) + BE(4, offset))]
  }

  // ... and behind them another track, whose samples have eight bytes.
  function Another(): seq<seq<byte>> {
    [Box("trak", []), SizesBox(8, 1)]
  }

  lemma TrackPlain(offset: nat)
    requires offset < Range(4)
    ensures AllPlain(OneSample(offset)) && |Join(OneSample(offset))| == 112
    ensures var b := OneSample(offset);
            && KindIn(b[0][..8]) == Trak && KindIn(b[1][..8]) == Alac && KindIn(b[2][..8]) == Stsz
            && KindIn(b[3][..8]) == Stsc && KindIn(b[4][..8]) == Stco
  {
    hide BE, ReadBE, KindIn, LenOf, Plain, Range, Box, Join, SizesBox;
    FourBytes();
    PlainBox("trak", []);
    PlainBox("alac", Zeros(28));
    SizesRead(4, 1, NO_TRACK);
    PlainBox("stsc", Zeros(4) + BE(4, 1) + BE(4, 1) + BE(4, 1) + BE(4, 1));
    PlainBox("stco", Zeros(4) + BE(4, 1) + BE(4, offset));
    var b := OneSample(offset);
    JoinFive(b[0], b[1], b[2], b[3], b[4]);
  }

  lemma JoinFive(a: seq<byte>, b: seq<byte>, c: seq<byte>, d: seq<byte>, e: seq<byte>)
    ensures |Join([a, b, c, d, e])| == |a| + |b| + |c| + |d| + |e|
  {
    assert [a, b, c, d, e][..4] == [a, b, c, d];
    assert [a, b, c, d][..3] == [a, b, c] && [a, b, c][..2] == [a, b] && [a, b][..1] == [a];
    JoinOne(a);
    assert |Join([a, b])| == |a| + |b|;
    assert |Join([a, b, c])| == |a| + |b| + |c|;
    assert |Join([a, b, c, d])| == |a| + |b| + |c| + |d|;
  }

  // What the five boxes say: one chunk with one sample of four bytes.
  lemma HeaderSays(offset: nat)
    requires offset < Range(4) && AllPlain(OneSample(offset))
    ensures VisitAll(OneSample(offset)) == Header(1, 1, None, true, true, 1, Track([offset], [0], [], 4, 1), false)
  {
    hide BE, ReadBE, KindIn, LenOf, Plain, Range, SizesIn, OffsetsIn, Box, SizesBox;
    var b := OneSample(offset);
    TrackPlain(offset);
    assert b[..5] == b;
    assert b[..5][..4] == b[..4] && b[..4][..3] == b[..3] && b[..3][..2] == b[..2];
    assert b[..2][..1] == b[..1] && b[..1][..0] == [];
    var h1 := NO_HEADER.(trak := 1);
    assert VisitAll(b[..1]) == h1;
    var h2 := h1.(play := 1);
    assert VisitAll(b[..2]) == h2;
    FourBytes();
    SizesRead(4, 1, NO_TRACK);
    var h3 := h2.(sized := true, sizesOf := 1, track := NO_TRACK.(defaultSize := 4, total := 1));
    assert VisitAll(b[..3]) == h3;
    RunsRead();
    var h4 := h3.(stsc := Some(b[3][12..]));
    assert VisitAll(b[..4]) == h4;
    OffsetsRead(b[3][12..], h4.track, offset);
  }

  // ... and with the other track behind it, one of eight.
  lemma BothSay(offset: nat)
    requires offset < Range(4)
    ensures AllPlain(OneSample(offset) + Another()) && |Join(OneSample(offset) + Another())| == 140
    ensures VisitAll(OneSample(offset) + Another())
         == Header(2, 1, None, true, true, 2, Track([offset], [0], [], 8, 1), false)
  {
    hide BE, ReadBE, KindIn, LenOf, Plain, Range, SizesIn, Box, SizesBox, OneSample;
    FourBytes();
    TrackPlain(offset);
    HeaderSays(offset);
    PlainBox("trak", []);
    SizesRead(8, 1, Track([offset], [0], [], 4, 1));
    var b, c := OneSample(offset), Another();
    TwoMore(b, c[0], c[1]);
  }

  lemma TwoMore(b: seq<seq<byte>>, x: seq<byte>, y: seq<byte>)
    requires AllPlain(b) && Plain(x) && Plain(y)
    ensures AllPlain(b + [x, y]) && |Join(b + [x, y])| == |Join(b)| + |x| + |y|
    ensures VisitAll(b + [x, y]) == Visit(Visit(VisitAll(b), KindIn(x[..8]), true, x), KindIn(y[..8]), true, y)
  {
    hide KindIn, LenOf, Plain, Visit;
    var all := b + [x, y];
    assert all[..|all| - 1] == b + [x] && (b + [x])[..|b|] == b;
  }

  lemma RunsRead()
    ensures var body := Box("stsc", Zeros(4) + BE(4, 1) + BE(4, 1) + BE(4, 1) + BE(4, 1));
            |body| == 28 && RunsIn(body[12..]) == Some([Run(1, 1)])
  {
    hide BE, ReadBE, Box, Range;
    FourBytes();
    var payload := Zeros(4) + BE(4, 1) + BE(4, 1) + BE(4, 1) + BE(4, 1);
    var body := Box("stsc", payload);
    ReadWritten(4, 1);
    PayloadWord("stsc", payload, 4);
    PayloadWord("stsc", payload, 8);
    PayloadWord("stsc", payload, 12);
    assert payload[4..8] == BE(4, 1) && payload[8..12] == BE(4, 1) && payload[12..16] == BE(4, 1);
    var kept := body[12..];
    assert kept[0..4] == body[12..16] && kept[4..8] == body[16..20] && kept[8..12] == body[20..24];
    assert Word(kept, 0) == 1 && Word(kept, 4) == 1 && Word(kept, 8) == 1;
    assert |kept| == 16 && RunsIn(kept).Some?;
    assert RunsIn(kept).value == [Run(1, 1)];
  }

  lemma OffsetsRead(stsc: seq<byte>, t: Track, offset: nat)
    requires RunsIn(stsc) == Some([Run(1, 1)]) && offset < Range(4)
    ensures OffsetsIn(Box("stco", Zeros(4) + BE(4, 1) + BE(4, offset)), Some(stsc), t)
         == Some(t.(offsets := [offset], firsts := [0]))
  {
    hide BE, ReadBE, Box, Range, RunsIn;
    FourBytes();
    var payload := Zeros(4) + BE(4, 1) + BE(4, offset);
    var body := Box("stco", payload);
    ReadWritten(4, 1);
    ReadWritten(4, offset);
    PayloadWord("stco", payload, 4);
    PayloadWord("stco", payload, 8);
    assert payload[4..8] == BE(4, 1) && payload[8..12] == BE(4, offset);
    assert Words(body, 16, 1) == [offset];
    assert FirstsOf([Run(1, 1)], 1) == [0];
  }

  // A new reader finds n bytes of a file at its first call.
  method Attend(boxes: seq<seq<byte>>, media: seq<byte>, n: nat, codec: Codec)
      returns (blocks: seq<seq<byte>>, status: Status, pos: nat, arrived: nat, consume: nat)
    requires AllPlain(boxes) && 8 + |media| < Range(4)
    requires |Join(boxes)| + 8 <= n < 256 && n <= |Join(boxes)| + 8 + |media|
    requires var h := VisitAll(boxes);
             h.play > 0 && h.indexed && !h.broken && Laid(h.track) && |Join(boxes)| + 8 <= h.track.offsets[0]
    ensures var h, p := VisitAll(boxes), |Join(boxes)|;
            var q := DataStart(h, p);
            Heard(h.track, Join(boxes) + Box("mdat", media), if q <= n then q else p + 8, n, status, blocks,
                  pos, arrived, consume)
  {
    hide BE, ReadBE, Box, KindIn, LenOf, Plain, Sane, After, BoxStart, Visited, Join, HeaderOf, VisitAll, Proper;
    hide Ring, Reader.Synced, Reader.Held, Reader.AtData, StreamBuffer.Valid, StreamBuffer.Shape, NoneMissed;
    hide LongEnough, AllHeard, Heard, Laid, DataStart;
    var file := Join(boxes) + Box("mdat", media);
    DataFile(boxes, media, 256, n);
    var buf := new StreamBuffer(256);
    var r := new Reader(buf, file);
    r.PlaceReady();
    var found, used, at, seen;
    found, used, status, blocks, at, seen := r.Listen([Feed(n), Poll(true)], Refuse, codec);
    pos, arrived, consume := r.pos, r.arrived, r.consume;
  }

  // The sample starts ten bytes behind the mdat header. The call that reads the header finds five of the
  // ten, takes four of them for the sample and hands them to the decoder.
  method WrongBlock(media: seq<byte>, codec: Codec) returns (blocks: seq<seq<byte>>)
    requires |media| == 14 && media[..4] != media[10..]
    ensures blocks == [media[..4]] && blocks[0] != media[10..]
  {
    hide OneSample, VisitAll, AllPlain, Join, Box, Samples, Heard, Laid;
    FourBytes();
    TrackPlain(130);
    HeaderSays(130);
    OneTrack(130, 4);
    var status, pos, arrived, consume;
    blocks, status, pos, arrived, consume := Attend(OneSample(130), media, 125, codec);
    WrongHeard(Join(OneSample(130)), media, blocks, status, pos, arrived, consume);
  }

  lemma WrongHeard(header: seq<byte>, media: seq<byte>, blocks: seq<seq<byte>>, status: Status,
                   pos: nat, arrived: nat, consume: nat)
    requires |header| == 112 && |media| == 14 && Laid(Track([130], [0], [], 4, 1))
    requires Heard(Track([130], [0], [], 4, 1), header + Box("mdat", media), 120, 125, status, blocks,
                   pos, arrived, consume)
    ensures blocks == [media[..4]]
  {
    hide Box, Samples, Laid;
    var file := header + Box("mdat", media);
    OneTrack(130, 4);
    NoMore(Track([130], [0], [], 4, 1), file, blocks);
    BoxPayload("mdat", media);
    assert file[120..124] == media[..4];
  }

  // Another track's sizes: the decoder gets eight bytes for the one sample of four.
  method WrongSizes(media: seq<byte>, codec: Codec) returns (blocks: seq<seq<byte>>)
    requires 8 <= |media| < 64
    ensures blocks == [media[..8]]
  {
    hide OneSample, Another, VisitAll, AllPlain, Join, Box, Samples;
    FourBytes();
    BothSay(148);
    OneTrack(148, 8);
    var status, pos, arrived, consume;
    blocks, status, pos, arrived, consume := Attend(OneSample(148) + Another(), media, 148 + |media|, codec);
    var file := Join(OneSample(148) + Another()) + Box("mdat", media);
    OneBlock(148, 8, file, blocks);
    BoxPayload("mdat", media);
    assert file[148..156] == media[..8];
  }

  lemma OneBlock(offset: nat, size: nat, file: seq<byte>, blocks: seq<seq<byte>>)
    requires 0 < offset && 0 < size && Samples(Track([offset], [0], [], size, 1), file, 0, blocks)
    requires offset + size <= |file|
    ensures blocks != [] ==> blocks == [file[offset..offset + size]]
  {
  }

  // A call that finds so many bytes reads all boxes and stops at the media data, or at the first chunk.
  ghost predicate Enters(boxes: seq<seq<byte>>, n: nat, s: Spot) {
    && AllPlain(boxes) && s.whole == seq(|boxes|, i => true) && s.found == Data && s.arrived == n
    && (var q := DataStart(VisitAll(boxes), |Join(boxes)|);
        s.pos == if q <= n then q else |Join(boxes)| + 8)
  }

  lemma DataFile(boxes: seq<seq<byte>>, media: seq<byte>, size: nat, n: nat)
    requires AllPlain(boxes) && VisitAll(boxes).play > 0 && 8 + |media| < Range(4)
    requires |Join(boxes)| + 8 <= n < size < MAX_BLOCK && n <= |Join(boxes)| + 8 + |media|
    ensures var file := Join(boxes) + Box("mdat", media);
            && |file| == |Join(boxes)| + 8 + |media| && file[|Join(boxes)| + 8..] == media
            && Sane(file) && Ready(file, size, FIRST) && AllBounded(Refuse)
            && Enters(boxes, n, After(file, size, FIRST, [Feed(n), Poll(true)], Refuse))
            && After(file, size, FIRST, [Feed(n)], Refuse).found == More
            && BoxStart(file, |boxes|) == |Join(boxes)| && NoneMissed(file, seq(|boxes|, i => true))
            && HeaderOf(file, |boxes|) == VisitAll(boxes)
  {
    hide BE, ReadBE, Box, KindIn, LenOf, Plain, Sane, Visited, Range, HeaderOf, Visit, Join, Scan, After, Seen, Fed;
    hide DataStart;
    var rest := Box("mdat", media);
    var file := Join(boxes) + rest;
    BoxHead("mdat", media);
    BoxPayload("mdat", media);
    SaneFile(boxes, rest);
    Refused();
    FirstFed(file, size, n);
    Two(file, size, FIRST, Feed(n), Poll(true), Refuse);
    ScanToData(boxes, rest, size, Fed(file, size, FIRST, n), n, Refuse(1));
    Lined(boxes, rest, |boxes|);
    assert boxes[..|boxes|] == boxes;
    HeaderIs(boxes, rest, |boxes|);
  }

  lemma OneTrack(offset: nat, size: nat)
    requires 0 < offset && 0 < size
    ensures var t := Track([offset], [0], [], size, 1);
            Laid(t) && SizeOf(t, 0) == size && BlockStart(t, 0) == offset
  {
  }

  lemma NoMore(t: Track, file: seq<byte>, blocks: seq<seq<byte>>)
    requires Laid(t) && t.total == 1 && blocks != [] && Samples(t, file, 1, blocks[1..])
    ensures blocks == [blocks[0]]
  {
  }

  lemma BoxPayload(name: string, payload: seq<byte>)
    requires Named(name)
    ensures Box(name, payload)[8..] == payload
  {
    hide BE;
  }
}
