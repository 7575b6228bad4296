/** An ordinary file, its tables inside moov, trak, mdia, minf and stbl, through read_mp4_header and alac_decode of
    components/squeezelite/alac.c: every sample comes out. */
module AlacPlays {
  import opened AlacReader
  import opened AlacRuns
  import opened AlacTrack
  import opened BigEndian
  import opened BoxFiles
  import opened BoxPolls
  import opened BoxRoom
  import opened BoxTables
  import opened BoxTrees
  import opened BoxWalk
  import opened ChunkTable
  import opened Memory
  import opened StreamFifo
  import opened TableFiles
  import opened Wrappers

  function Table(name: string, ws: seq<nat>): Tree {
    Leaf(name, Zeros(4) + WordBytes(ws))
  }

  // Three samples of 3, 5 and 4 bytes: two in a chunk at 196, one in a chunk at 206.
  const SIZES: seq<nat> := [3, 5, 4]
  const RUNS := [Run(1, 2), Run(2, 1)]
  const OFFSETS: seq<nat> := [196, 206]
  const SONG := Track([196, 206], [0, 2], [3, 5, 4, 0], 0, 3)

  function SizesLeaf(): Tree { Table("stsz", [0, 3] + SIZES) }
  function RunsLeaf(): Tree { Table("stsc", [2] + Entries(RUNS, [1, 1])) }
  function OffsetsLeaf(): Tree { Table("stco", [2] + OFFSETS) }
  function Entry(): Tree { Leaf("alac", Zeros(28)) }
  function Stsd(): Tree { Holder("stsd", Zeros(8), [Entry()]) }
  function Stbl(): Tree { Holder("stbl", [], [Stsd(), SizesLeaf(), RunsLeaf(), OffsetsLeaf()]) }
  function Minf(): Tree { Holder("minf", [], [Stbl()]) }
  function Mdia(): Tree { Holder("mdia", [], [Minf()]) }
  function Trak(): Tree { Holder("trak", [], [Mdia()]) }
  function Moov(): Tree { Holder("moov", [], [Trak()]) }

  // ---------------------------------------------------------------- the file

  lemma LeafIs(name: string, payload: seq<byte>)
    requires HoldsNothing(name) && 8 + |payload| < 0x1_0000_0000
    ensures Named(name) && Good(Leaf(name, payload))
    ensures Wire(Leaf(name, payload)) == Box(name, payload) && |Wire(Leaf(name, payload))| == 8 + |payload|
  {
    LeafNamed(name);
    hide HoldsNothing;
  }

  lemma LeafNames()
    ensures HoldsNothing("alac") && HoldsNothing("stsz") && HoldsNothing("stsc") && HoldsNothing("stco")
  {
  }

  lemma OneInside(name: string, lead: seq<byte>, t: Tree)
    requires Holds(name, 8 + |lead|) && Good(t) && 8 + |lead| + |Wire(t)| < 0x1_0000_0000
    ensures Good(Holder(name, lead, [t])) && |Wire(Holder(name, lead, [t]))| == 8 + |lead| + |Wire(t)|
  {
    HolderStep(name, 8 + |lead|, 0);
    hide Holds, StepOver, KindOf, Box;
    assert WireAll([t]) == Wire(t);
  }

  lemma StblIs()
    ensures Good(Stbl()) && |Wire(Stbl())| == 156
  {
    hide Holds, HoldsNothing, Wire, WordBytes, Box, Good, Entries;
    LeafNames();
    LeafIs("alac", Zeros(28));
    LeafIs("stsz", Zeros(4) + WordBytes([0, 3] + SIZES));
    LeafIs("stsc", Zeros(4) + WordBytes([2] + Entries(RUNS, [1, 1])));
    LeafIs("stco", Zeros(4) + WordBytes([2] + OFFSETS));
    HolderNames();
    OneInside("stsd", Zeros(8), Entry());
    FourInside(Stsd(), SizesLeaf(), RunsLeaf(), OffsetsLeaf());
  }

  lemma HolderNames()
    ensures Holds("stsd", 16) && Holds("stbl", 8) && Holds("minf", 8) && Holds("mdia", 8) && Holds("trak", 8)
    ensures Holds("moov", 8)
  {
  }

  lemma FourInside(a: Tree, b: Tree, c: Tree, d: Tree)
    requires Good(a) && Good(b) && Good(c) && Good(d)
    requires |Wire(a)| + |Wire(b)| + |Wire(c)| + |Wire(d)| < 1000
    ensures var t := Holder("stbl", [], [a, b, c, d]);
            Good(t) && |Wire(t)| == 8 + |Wire(a)| + |Wire(b)| + |Wire(c)| + |Wire(d)|
  {
    hide Holds, StepOver, KindOf, Box, WireAll, Wire;
    HolderNames();
    HolderStep("stbl", 8, 0);
    var ts := [a, b, c, d];
    FourWires(a, b, c, d);
    StblWire(ts);
    assert forall t :: t in ts ==> Good(t);
  }

  lemma StblWire(ts: seq<Tree>)
    requires Named("stbl")
    ensures var t := Holder("stbl", [], ts); Wire(t) == Box("stbl", [] + WireAll(ts)) && |Wire(t)| == 8 + |WireAll(ts)|
  {
    hide WireAll;
  }

  lemma FourWires(a: Tree, b: Tree, c: Tree, d: Tree)
    ensures |WireAll([a, b, c, d])| == |Wire(a)| + |Wire(b)| + |Wire(c)| + |Wire(d)|
  {
    hide Wire;
    assert [a, b, c, d][1..] == [b, c, d] && [b, c, d][1..] == [c, d] && [c, d][1..] == [d] && [d][1..] == [];
    assert |WireAll([d])| == |Wire(d)|;
    assert |WireAll([c, d])| == |Wire(c)| + |Wire(d)|;
    assert |WireAll([b, c, d])| == |Wire(b)| + |Wire(c)| + |Wire(d)|;
  }

  lemma MoovIs()
    ensures Good(Moov()) && |WireAll([Moov()])| == 188 && AllGood([Moov()])
  {
    hide Holds, Wire, Good, Stbl;
    StblIs();
    HolderNames();
    OneInside("minf", [], Stbl());
    OneInside("mdia", [], Minf());
    OneInside("trak", [], Mdia());
    OneInside("moov", [], Trak());
    assert WireAll([Moov()]) == Wire(Moov()) + [];
  }

  function Boxes(): seq<Tree> {
    [Moov(), Trak(), Mdia(), Minf(), Stbl(), Stsd(), Entry(), SizesLeaf(), RunsLeaf(), OffsetsLeaf()]
  }

  lemma OnePreorder(t: Tree)
    ensures Preorder([t]) == [t] + if t.Holder? then Preorder(t.children) else []
  {
    assert [t][1..] == [];
  }

  lemma InPreorder()
    ensures Preorder([Moov()]) == Boxes()
  {
    hide Preorder;
    OnePreorder(Entry());
    OnePreorder(Moov());
    OnePreorder(Trak());
    OnePreorder(Mdia());
    OnePreorder(Minf());
    OnePreorder(Stbl());
    FourPreorder(Stsd(), SizesLeaf(), RunsLeaf(), OffsetsLeaf());
    OnePreorder(Stsd());
    hide Table, Entry;
  }

  lemma FourPreorder(a: Tree, b: Tree, c: Tree, d: Tree)
    requires b.Leaf? && c.Leaf? && d.Leaf?
    ensures Preorder([a, b, c, d]) == Preorder([a]) + [b, c, d]
  {
    OnePreorder(a);
    assert [a, b, c, d][1..] == [b, c, d] && [b, c, d][1..] == [c, d] && [c, d][1..] == [d] && [d][1..] == [];
    assert Preorder([d]) == [d];
    assert Preorder([c, d]) == [c, d];
    assert Preorder([b, c, d]) == [b, c, d];
  }

  // ---------------------------------------------------------------- what the header says

  // What the boxes of these trees, one behind the other, say.
  ghost predicate Say(ts: seq<Tree>, h: Header) {
    && AllGood(ts) && (forall i :: 0 <= i < |ts| ==> |BytesOf(ts)[i]| >= 8)
    && VisitAll(BytesOf(ts)) == h
  }

  // One more box.
  lemma Says(h: Header, before: seq<Tree>, t: Tree, all: seq<Tree>)
    requires Say(before, h) && Good(t) && all == before + [t]
    ensures Say(all, Visit(h, KindOf(t.name), true, Wire(t)))
  {
    hide Visit, KindIn, KindOf, Wire, Good, LenOf, StepOver;
    WireHead(t);
    var bs := BytesOf(all);
    assert bs[..|bs| - 1] == BytesOf(before);
  }

  function Six(): seq<Tree> {
    [Moov(), Trak(), Mdia(), Minf(), Stbl(), Stsd()]
  }

  lemma FirstSix()
    requires AllGood(Boxes())
    ensures Say(Six(), NO_HEADER.(trak := 1))
  {
    hide Wire, Good, KindOf, Say, Visit, Moov, Trak, Mdia, Minf, Stbl, Stsd, Table, Entry;
    ContainerNames();
    SixNames();
    NothingSaid();
    var b := Boxes();
    var h := NO_HEADER.(trak := 1);
    assert Good(b[0]) && Good(b[1]) && Good(b[2]) && Good(b[3]) && Good(b[4]) && Good(b[5]);
    TrakCounted(Wire(Moov()), Wire(Trak()));
    Says(NO_HEADER, [], Moov(), b[..1]);
    Says(NO_HEADER, b[..1], Trak(), b[..2]);
    NothingRead(h, Inside, Wire(Mdia()));
    Says(h, b[..2], Mdia(), b[..3]);
    NothingRead(h, Inside, Wire(Minf()));
    Says(h, b[..3], Minf(), b[..4]);
    NothingRead(h, Inside, Wire(Stbl()));
    Says(h, b[..4], Stbl(), b[..5]);
    NothingRead(h, Kind.Stsd, Wire(Stsd()));
    Says(h, b[..5], Stsd(), b[..6]);
    assert b[..6] == Six();
  }

  lemma TrakCounted(moov: seq<byte>, trak: seq<byte>)
    ensures Visit(NO_HEADER, Kind.Moov, true, moov) == NO_HEADER
    ensures Visit(NO_HEADER, Kind.Trak, true, trak) == NO_HEADER.(trak := 1)
  {
    hide SizesIn, OffsetsIn;
  }

  lemma NothingRead(h: Header, kind: Kind, body: seq<byte>)
    requires kind in {Inside, Kind.Stsd}
    ensures Visit(h, kind, true, body) == h
  {
    hide SizesIn, OffsetsIn;
  }

  lemma SixNames()
    ensures Moov().name == "moov" && Trak().name == "trak" && Mdia().name == "mdia" && Minf().name == "minf"
    ensures Stbl().name == "stbl" && Stsd().name == "stsd"
  {
  }

  lemma NothingSaid()
    ensures Say([], NO_HEADER)
  {
    assert BytesOf([]) == [];
  }

  lemma ContainerNames()
    ensures KindOf("moov") == Kind.Moov && KindOf("trak") == Kind.Trak && KindOf("mdia") == Inside
    ensures KindOf("minf") == Inside && KindOf("stbl") == Inside && KindOf("stsd") == Kind.Stsd
  {
    ContainerNamesToo();
  }

  lemma ContainerNamesToo()
    ensures KindOf("minf") == Inside && KindOf("stbl") == Inside && KindOf("stsd") == Kind.Stsd
  {
  }

  lemma TableNames()
    ensures KindOf("alac") == Alac && KindOf("stsz") == Stsz && KindOf("stsc") == Stsc && KindOf("stco") == Stco
  {
  }

  lemma SongSays()
    ensures Say(Boxes(), Header(1, 1, None, true, true, 1, SONG, false))
  {
    hide Wire, Good, Entry, SizesLeaf, RunsLeaf, OffsetsLeaf, KindOf, Preorder, SizesIn, OffsetsIn, Say, SONG;
    hide Moov, Trak, Mdia, Minf, Stbl, Stsd;
    MoovIs();
    InPreorder();
    PreorderGood([Moov()]);
    FirstSix();
    TableNames();
    LeavesNamed();
    var b := Boxes();
    assert Good(b[6]) && Good(b[7]) && Good(b[8]) && Good(b[9]);
    var h0 := NO_HEADER.(trak := 1);
    assert b[..6] == Six();
    Says(h0, b[..6], Entry(), b[..7]);
    var h1 := h0.(play := 1);
    Says(h1, b[..7], SizesLeaf(), b[..8]);
    SizesSay(h1.track);
    var h2 := h1.(sized := true, sizesOf := 1, track := Track([], [], [3, 5, 4, 0], 0, 3));
    Says(h2, b[..8], RunsLeaf(), b[..9]);
    RunsWritten();
    var h3 := h2.(stsc := Some(Wire(RunsLeaf())[12..]));
    Says(h3, b[..9], OffsetsLeaf(), b);
    OffsetsSay(h3.track);
    SongIs();
  }

  lemma LeavesNamed()
    ensures Entry().name == "alac" && SizesLeaf().name == "stsz" && RunsLeaf().name == "stsc"
    ensures OffsetsLeaf().name == "stco"
  {
  }

  lemma SongIs()
    ensures SONG == Track([196, 206], [0, 2], [3, 5, 4, 0], 0, 3)
  {
  }

  lemma SizesSay(t: Track)
    ensures SizesIn(Wire(SizesLeaf()), t) == Some(t.(defaultSize := 0, total := 3, sizes := [3, 5, 4, 0]))
  {
    hide HoldsNothing, SizesIn;
    LeafNames();
    LeafIs("stsz", Zeros(4) + WordBytes([0, 3] + SIZES));
    EachSizeRead(Zeros(4), SIZES, t);
    assert SIZES + [0] == [3, 5, 4, 0];
  }

  lemma RunsWritten()
    ensures Wire(RunsLeaf()) == RunsBox(Zeros(4), RUNS, [1, 1]) && |Wire(RunsLeaf())| == 40
  {
    hide HoldsNothing, Entries;
    LeafNames();
    LeafIs("stsc", Zeros(4) + WordBytes([2] + Entries(RUNS, [1, 1])));
  }

  lemma OffsetsSay(t: Track)
    ensures OffsetsIn(Wire(OffsetsLeaf()), Some(Wire(RunsLeaf())[12..]), t)
         == Some(t.(offsets := [196, 206], firsts := [0, 2]))
  {
    hide HoldsNothing, OffsetsIn, RunsBox, TableBox;
    LeafNames();
    LeafIs("stco", Zeros(4) + WordBytes([2] + OFFSETS));
    TableIs("stco", Zeros(4), [2] + OFFSETS);
    RunsWritten();
    ChunksRead(Zeros(4), RUNS, [1, 1], Zeros(4), OFFSETS, t);
    TwoFirsts();
  }

  lemma TableIs(name: string, flags: seq<byte>, ws: seq<nat>)
    requires Named(name) && |flags| == 4
    ensures TableBox(name, flags, ws) == Box(name, flags + WordBytes(ws))
  {
  }

  lemma TwoFirsts()
    ensures InFront(RUNS, 0) == 0 && InFront(RUNS, 1) == 2
    ensures seq(2, c requires 0 <= c < 2 => InFront(RUNS, c) % 0x1_0000_0000) == [0, 2]
  {
    assert RUNS[..1] == [Run(1, 2)] && [Run(1, 2)][..0] == [];
    assert InFront([Run(1, 2)], 0) == 0 && InFront([Run(1, 2)], 1) == 2;
  }

  // ---------------------------------------------------------------- playing

  // A byte and a call, m times.
  function Beats(m: nat): (events: seq<Event>)
    ensures |events| == 2 * m
  {
    if m == 0 then [] else Beats(m - 1) + [Feed(1), Poll(true)]
  }

  // Each is a round.
  lemma {:induction false} BeatsCount(m: nat)
    ensures Rounds(Beats(m)) == m && !Brought(Beats(m))
    ensures forall e :: e in Beats(m) && e.Poll? ==> e.connected
    decreases m
  {
    if m > 0 {
      BeatsCount(m - 1);
      var b := Beats(m);
      assert b[..|b| - 1] == Beats(m - 1) + [Feed(1)];
      assert (Beats(m - 1) + [Feed(1)])[..|b| - 2] == Beats(m - 1);
    }
  }

  lemma SongExtents()
    ensures Sized(SONG) && SizeOf(SONG, 0) == 3 && SizeOf(SONG, 1) == 5 && SizeOf(SONG, 2) == 4
    ensures Extent(SONG, 0, 1) == 3 && Extent(SONG, 0, 2) == 8
    ensures Extent(SONG, 0, 0) == 0 && Extent(SONG, 2, 2) == 0
  {
  }

  lemma SongIsLaid()
    ensures Laid(SONG)
  {
    SongExtents();
    hide Extent, SizeOf;
    assert forall k :: 0 <= k < 3 ==> SizeOf(SONG, k) > 0;
  }

  lemma SongStarts()
    requires Laid(SONG)
    ensures BlockStart(SONG, 0) == 196 && BlockStart(SONG, 1) == 199 && BlockStart(SONG, 2) == 206
  {
    SongExtents();
    hide Extent, ChunkFrom, SizeOf, Laid;
    ChunkFromIs(SONG, 0, 0, 0);
    ChunkFromIs(SONG, 0, 0, 1);
    ChunkFromIs(SONG, 0, 1, 2);
  }

  lemma SongLaid(file: seq<byte>)
    requires |file| == 210
    ensures Laid(SONG) && Playable(SONG, file, 256) && SizeOf(SONG, 0) == 3
    ensures Block(SONG, file, 0) == file[196..199] && Block(SONG, file, 1) == file[199..204]
    ensures Block(SONG, file, 2) == file[206..210]
  {
    hide Extent, ChunkFrom, SizeOf, Laid, BlockStart;
    SongIsLaid();
    SongStarts();
    SongExtents();
  }

  // The file and the first call: all of it is there.
  lemma SongFile(media: seq<byte>)
    requires |media| == 14
    ensures var file := WireAll([Moov()]) + Box("mdat", media);
            && |file| == 210 && file[196..] == media && Sane(file) && Ready(file, 256, FIRST) && AllBounded(Refuse)
            && (var t := After(file, 256, FIRST, [Feed(210), Poll(true)], Refuse);
                t.whole == seq(10, i => true) && t.found == Data && t.arrived == 210 && t.pos == 196)
            && After(file, 256, FIRST, [Feed(210)], Refuse).found == More
            && BoxStart(file, 10) == 188 && NoneMissed(file, seq(10, i => true))
            && HeaderOf(file, 10) == Header(1, 1, None, true, true, 1, SONG, false)
  {
    hide Box, KindIn, LenOf, Sane, Range, Visit, Scan, After, Seen, Fed, Preorder, Moov, WireAll, VisitAll;
    hide SONG, HeaderOf, BoxStart, KindOf, BytesOf, AllGood;
    FourBytes();
    MoovIs();
    InPreorder();
    SongSays();
    var rest := Box("mdat", media);
    var file := WireAll([Moov()]) + rest;
    BoxHead("mdat", media);
    MdatName();
    BoxPayload("mdat", media);
    assert file[196..] == rest[8..];
    TreeSane([Moov()], rest);
    TreeHeader([Moov()], rest);
    Refused();
    FirstFed(file, 256, 210);
    Two(file, 256, FIRST, Feed(210), Poll(true), Refuse);
    SongStart();
    TreeScan([Moov()], rest, 256, Fed(file, 256, FIRST, 210), 210, Refuse(1));
  }

  lemma MdatName()
    ensures Named("mdat") && KindOf("mdat") == Mdat
  {
  }

  lemma SongStart()
    ensures DataStart(Header(1, 1, None, true, true, 1, SONG, false), 188) == 196
  {
  }

  // From a new reader to the last sample.
  method PlaySong(media: seq<byte>, codec: Codec) returns (blocks: seq<seq<byte>>)
    requires |media| == 14 && forall b :: codec(b) !in {None, Some(0)}
    ensures blocks == [media[..3], media[3..8], media[10..]]
  {
    hide Box, KindIn, LenOf, Sane, After, BoxStart, Visited, WireAll, HeaderOf, Moov, SONG;
    hide Ring, Reader.Synced, Reader.Held, Reader.AtData, StreamBuffer.Valid, StreamBuffer.Shape, NoneMissed;
    hide Samples, Laid, Playable, Block, Rounds, Beats;
    var file := WireAll([Moov()]) + Box("mdat", media);
    SongFile(media);
    SongLaid(file);
    var events := [Feed(210), Poll(true)] + Beats(424);
    BeatsCount(424);
    StopsAtData(file, events);
    var buf := new StreamBuffer(256);
    var r := new Reader(buf, file);
    r.PlaceReady();
    var found, used, status, at, seen;
    found, used, status, blocks, at, seen := r.Listen(events, Refuse, codec);
    assert used == 2;
    assert events[2..] == Beats(424);
    SongOffset();
    ThreeBlocks(file, media, blocks);
  }

  lemma SongOffset()
    ensures SONG.offsets == [196, 206] && SONG.total == 3
  {
  }

  // Any prefix of at least two events has met the media data, and no shorter one.
  lemma StopsAtData(file: seq<byte>, events: seq<Event>)
    requires Ready(file, 256, FIRST) && AllBounded(Refuse)
    requires |events| >= 2 && events[0] == Feed(210) && events[1] == Poll(true)
    requires After(file, 256, FIRST, [Feed(210), Poll(true)], Refuse).found == Data
    requires After(file, 256, FIRST, [Feed(210)], Refuse).found == More
    ensures After(file, 256, FIRST, events, Refuse) == After(file, 256, FIRST, [Feed(210), Poll(true)], Refuse)
    ensures forall n :: 2 <= n <= |events| ==> After(file, 256, FIRST, events[..n], Refuse).found == Data
    ensures After(file, 256, FIRST, events[..1], Refuse).found == More
    ensures After(file, 256, FIRST, events[..0], Refuse).found == More
  {
    hide After, BoxStart;
    assert events[..2] == [Feed(210), Poll(true)] && events[..1] == [Feed(210)] && events[..0] == [];
    NothingYet(file, 256, FIRST, Refuse);
    forall n | 2 <= n <= |events|
      ensures After(file, 256, FIRST, events[..n], Refuse) == After(file, 256, FIRST, events[..2], Refuse)
    {
      assert events[..n][..2] == events[..2];
      Settled(file, 256, FIRST, events[..n], Refuse, 2);
    }
    assert events[..|events|] == events;
  }

  lemma ThreeBlocks(file: seq<byte>, media: seq<byte>, blocks: seq<seq<byte>>)
    requires |file| == 210 && |media| == 14 && file[196..] == media && Laid(SONG)
    requires Samples(SONG, file, 0, blocks) && |blocks| == 3
    ensures blocks == [media[..3], media[3..8], media[10..]]
  {
    SongLaid(file);
    hide Laid, Block, Playable, SONG;
    assert file[196..199] == media[..3] && file[199..204] == media[3..8] && file[206..210] == media[10..];
    assert blocks[0] == Block(SONG, file, 0 + 0) && blocks[1] == Block(SONG, file, 0 + 1);
    assert blocks[2] == Block(SONG, file, 0 + 2);
  }
}
