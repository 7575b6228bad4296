/** components/squeezelite/alac.c, read_mp4_header: which boxes of an MP4 file the header reader
    visits, and what it keeps of them. */
module BoxWalk {
  import opened AlacTrack
  import opened BigEndian
  import opened BoxTables
  import opened Memory
  import opened Wrappers

  // read_mp4_header: 0, 1 and -1; and when unwrapping would move a negative number of bytes.
  datatype Found = More | Data | Failed | Undefined

  // Box types the reader tells apart. Inside are the plain containers (mdia, minf, stbl, udta, ilst).
  datatype Kind = Moov | Trak | Alac | Stsz | Stts | Stsc | Stco | Mdat | Tags | Esds
                | Inside | Stsd | Mp4a | Meta | Other

  function KindOf(name: string): Kind {
    if name == "moov" then Moov
    else if name == "trak" then Trak
    else if name == "alac" then Alac
    else if name == "stsz" then Stsz
    else if name == "stts" then Stts
    else if name == "stsc" then Stsc
    else if name == "stco" then Stco
    else if name == "mdat" then Mdat
    else if name == "----" then Tags
    else if name == "esds" then Esds
    else if name in ["mdia", "minf", "stbl", "udta", "ilst"] then Inside
    else if name == "stsd" then Stsd
    else if name == "mp4a" then Mp4a
    else if name == "meta" then Meta
    else Other
  }

  // A box header: a 32-bit length and four characters.
  function LenOf(head: seq<byte>): (len: int)
    requires |head| == 8
    ensures 0 <= len
  {
    ReadBE(head[..4])
  }

  function KindIn(head: seq<byte>): Kind
    requires |head| == 8
  {
    KindOf(seq(4, i requires 0 <= i < 4 => head[4 + i] as int as char))
  }

  // Bytes from a box to the next one visited: containers are entered, other boxes passed over.
  function StepOver(kind: Kind, len: nat): (n: nat)
    ensures len >= 8 ==> n >= 8
  {
    match kind
    case Moov | Trak | Inside => 8
    case Stsd => 16
    case Mp4a => 36
    case Meta => 12
    case _ => len
  }

  // A pass that finds such a box cut short waits for the rest of it.
  predicate Waits(kind: Kind) {
    kind in {Esds, Stts, Stsc, Stsz, Stco, Tags}
  }

  // Boxes whose contents are read for the tables, when they are in one piece and one byte more has
  // arrived.
  predicate Read(kind: Kind) {
    kind in {Alac, Stsz, Stsc, Stco}
  }

  // What the reader remembers: tracks counted, the one to play, the sample-to-chunk table until the chunk
  // offsets come, and the tables. The source does not keep whose sizes it has (sizesOf); `broken` stands
  // for a table its box does not hold or the standard does not allow, which is not followed.
  datatype Header = Header(trak: nat, play: nat, stsc: Option<seq<byte>>, indexed: bool, sized: bool, sizesOf: nat,
                           track: Track, broken: bool)

  const NO_TRACK := Track([], [], [], 0, 0)
  const NO_HEADER := Header(0, 0, None, false, false, 0, NO_TRACK, false)

  // A visit to a box; its contents are read when it is there in one piece with a byte to spare. The
  // sizes are read whatever track they are of, the offsets only for the track to play.
  function Visit(h: Header, kind: Kind, whole: bool, body: seq<byte>): Header {
    match kind
    case Moov => h.(trak := 0, play := 0)
    case Trak => h.(trak := h.trak + 1)
    case Alac => if whole then h.(play := h.trak) else h
    case Stsz => if whole then WithSizes(h, SizesIn(body, h.track)) else h
    case Stsc =>
      if !whole || h.indexed then h
      else if |body| < 12 then h.(broken := true)
      else h.(stsc := Some(body[12..]))
    case Stco => if whole && h.play == h.trak then WithOffsets(h, OffsetsIn(body, h.stsc, h.track)) else h
    case _ => h
  }

  function WithSizes(h: Header, t: Option<Track>): Header {
    if t.None? then h.(broken := true) else h.(sized := true, sizesOf := h.trak, track := t.value)
  }

  function WithOffsets(h: Header, t: Option<Track>): Header {
    if t.None? then h.(broken := true) else h.(indexed := true, stsc := None, track := t.value)
  }

  // The part of a round of read_mp4_header's loop that looks into the box.
  method Look(h: Header, kind: Kind, whole: bool, body: seq<byte>) returns (h': Header)
    ensures h' == Visit(h, kind, whole, body)
  {
    h' := h;
    match kind {
      case Moov =>
        h' := h.(trak := 0, play := 0);
      case Trak =>
        h' := h.(trak := h.trak + 1);
      case Alac =>
        if whole {
          h' := h.(play := h.trak);
        }
      case Stsz =>
        if whole {
          var t := ReadSizes(body, h.track);
          h' := WithSizes(h, t);
        }
      case Stsc =>
        if whole && !h.indexed {
          h' := if |body| < 12 then h.(broken := true) else h.(stsc := Some(body[12..]));
        }
      case Stco =>
        if whole && h.play == h.trak {
          var t := ReadOffsets(body, h.stsc, h.track);
          h' := WithOffsets(h, t);
        }
      case _ =>
    }
  }

  // Where reading starts after an mdat box at p: offsets before the box are not gone back to.
  function DataStart(h: Header, p: nat): (q: nat)
    ensures q >= p + 8
  {
    if h.indexed && h.track.offsets != [] && h.track.offsets[0] > p + 8 then h.track.offsets[0] else p + 8
  }

  ghost function HeadAt(file: seq<byte>, p: nat): (head: seq<byte>)
    requires p + 8 <= |file|
    ensures |head| == 8
  {
    file[p..p + 8]
  }

  // The whole box at p, as far as the file goes.
  ghost function BodyAt(file: seq<byte>, p: nat): seq<byte>
    requires p + 8 <= |file|
  {
    file[p..Min(p + LenOf(HeadAt(file, p)), |file|)]
  }

  // Where the n-th visited box starts; a file too short for another box has none further on.
  ghost function BoxStart(file: seq<byte>, n: nat): (p: nat)
  {
    if n == 0 then 0
    else
      var p := BoxStart(file, n - 1);
      if p + 8 > |file| then p
      else p + StepOver(KindIn(HeadAt(file, p)), LenOf(HeadAt(file, p)))
  }

  // What is remembered after |whole| boxes, when whole[i] says whether box i was there in one piece
  // with a byte to spare.
  ghost function Visited(file: seq<byte>, whole: seq<bool>): Header
  {
    if whole == [] then NO_HEADER
    else
      var n := |whole| - 1;
      var p := BoxStart(file, n);
      if p + 8 > |file| then Visited(file, whole[..n])
      else Visit(Visited(file, whole[..n]), KindIn(HeadAt(file, p)), whole[n], BodyAt(file, p))
  }

  // Boxes are at least as long as their headers.
  ghost predicate Sane(file: seq<byte>) {
    forall n: nat :: BoxStart(file, n) + 8 <= |file| ==> LenOf(HeadAt(file, BoxStart(file, n))) >= 8
  }

  // What one more box does to the position and to the header.
  lemma OneBox(file: seq<byte>, whole: seq<bool>, b: bool, body: seq<byte>)
    requires var p := BoxStart(file, |whole|); p + 8 <= |file| && (b ==> body == BodyAt(file, p))
    ensures var p := BoxStart(file, |whole|);
            var kind := KindIn(HeadAt(file, p));
            && BoxStart(file, |whole + [b]|) == p + StepOver(kind, LenOf(HeadAt(file, p)))
            && Visited(file, whole + [b]) == Visit(Visited(file, whole), kind, b, body)
  {
    hide KindIn, LenOf, StepOver, Visit;
    var p := BoxStart(file, |whole|);
    assert (whole + [b])[..|whole|] == whole;
    if !b {
      UnreadBody(Visited(file, whole), KindIn(HeadAt(file, p)), body, BodyAt(file, p));
    }
  }

  lemma UnreadBody(h: Header, kind: Kind, body: seq<byte>, body': seq<byte>)
    ensures Visit(h, kind, false, body) == Visit(h, kind, false, body')
  {
    hide SizesIn, OffsetsIn;
  }

  lemma NothingToRead(h: Header, kind: Kind, whole: bool, whole': bool, body: seq<byte>)
    requires Read(kind) ==> whole == whole'
    ensures Visit(h, kind, whole, body) == Visit(h, kind, whole', body)
  {
    hide SizesIn, OffsetsIn;
  }

  lemma WaitsChangesNothing(h: Header, kind: Kind, len: nat, body: seq<byte>)
    requires Waits(kind)
    ensures StepOver(kind, len) == len && Visit(h, kind, false, body) == h
  {
    hide SizesIn, OffsetsIn;
  }

  lemma SaneAt(file: seq<byte>, n: nat)
    requires Sane(file) && BoxStart(file, n) + 8 <= |file|
    ensures LenOf(HeadAt(file, BoxStart(file, n))) >= 8
  {
    hide KindIn, LenOf;
  }

  // No box worth reading was passed over unread.
  ghost predicate NoneMissed(file: seq<byte>, whole: seq<bool>) {
    forall n :: 0 <= n < |whole| && BoxStart(file, n) + 8 <= |file| && Read(KindIn(HeadAt(file, BoxStart(file, n)))) ==>
      whole[n]
  }

  // Then the header depends on the file alone, not on how it arrived.
  lemma {:induction false} ScheduleFree(file: seq<byte>, whole: seq<bool>, whole': seq<bool>)
    requires |whole| == |whole'| && NoneMissed(file, whole) && NoneMissed(file, whole')
    ensures Visited(file, whole) == Visited(file, whole')
  {
    hide KindIn, BoxStart, Visit, Read;
    if whole != [] {
      var n := |whole| - 1;
      var p := BoxStart(file, n);
      assert forall i :: 0 <= i < n ==> whole[..n][i] == whole[i] && whole'[..n][i] == whole'[i];
      ScheduleFree(file, whole[..n], whole'[..n]);
      if p + 8 <= |file| {
        NothingToRead(Visited(file, whole[..n]), KindIn(HeadAt(file, p)), whole[n], whole'[n], BodyAt(file, p));
      }
    }
  }

  // What a reader that misses nothing remembers of the first n boxes.
  ghost function HeaderOf(file: seq<byte>, n: nat): Header {
    Visited(file, seq(n, i => true))
  }

  lemma NothingLost(file: seq<byte>, whole: seq<bool>)
    requires NoneMissed(file, whole)
    ensures Visited(file, whole) == HeaderOf(file, |whole|)
  {
    hide KindIn, BoxStart, Visited;
    ScheduleFree(file, whole, seq(|whole|, i => true));
  }

  // ---------------------------------------------------------------- whose sizes

  // Box k is a sizes box that was read.
  ghost predicate SizesAt(file: seq<byte>, whole: seq<bool>, k: nat) {
    k < |whole| && whole[k] && BoxStart(file, k) + 8 <= |file| && KindIn(HeadAt(file, BoxStart(file, k))) == Stsz
  }

  // Reading anything but sizes leaves the sizes.
  lemma SizesStay(h: Header, kind: Kind, whole: bool, body: seq<byte>)
    requires kind != Stsz || !whole
    ensures var h' := Visit(h, kind, whole, body);
            && h'.sizesOf == h.sizesOf && h'.sized == h.sized
            && h'.track.sizes == h.track.sizes && h'.track.defaultSize == h.track.defaultSize
            && h'.track.total == h.track.total
  {
    hide SizesIn, RunsIn;
  }

  // The sizes are those of the last sizes box that was read, whatever track that is in: they are the
  // sizes of the track to play exactly when this box is in it.
  lemma {:induction false} SizesAreLast(file: seq<byte>, whole: seq<bool>, k: nat)
    requires SizesAt(file, whole, k) && forall j :: k < j < |whole| ==> !SizesAt(file, whole, j)
    requires SizesIn(BodyAt(file, BoxStart(file, k)), Visited(file, whole[..k]).track).Some?
    ensures var h := Visited(file, whole);
            var t := SizesIn(BodyAt(file, BoxStart(file, k)), Visited(file, whole[..k]).track).value;
            && h.sized && h.sizesOf == Visited(file, whole[..k]).trak
            && (h.sizesOf == h.play <==> Visited(file, whole[..k]).trak == h.play)
            && h.track.sizes == t.sizes && h.track.defaultSize == t.defaultSize && h.track.total == t.total
    decreases |whole|
  {
    hide KindIn, LenOf, SizesIn, OffsetsIn;
    var n := |whole| - 1;
    var p := BoxStart(file, n);
    assert whole[..n][..k] == whole[..k];
    if k < n {
      forall j | k < j < n
        ensures !SizesAt(file, whole[..n], j)
      {
        assert !SizesAt(file, whole, j);
      }
      assert SizesAt(file, whole[..n], k);
      SizesAreLast(file, whole[..n], k);
      if p + 8 <= |file| {
        assert !SizesAt(file, whole, n);
        SizesStay(Visited(file, whole[..n]), KindIn(HeadAt(file, p)), whole[n], BodyAt(file, p));
      }
    }
  }
}
