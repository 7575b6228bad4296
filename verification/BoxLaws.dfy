/** components/squeezelite/alac.c, read_mp4_header: which of the boxes visited the header remembers. */
module BoxLaws {
  import opened BoxTables
  import opened BoxWalk
  import opened Memory
  import opened Wrappers

  // Box n was visited with this name.
  ghost predicate KindIs(file: seq<byte>, n: nat, kind: Kind) {
    BoxStart(file, n) + 8 <= |file| && KindIn(HeadAt(file, BoxStart(file, n))) == kind
  }

  // ---------------------------------------------------------------- tracks

  // The trak boxes among the first n, since the last moov box.
  ghost function Tracks(file: seq<byte>, n: nat): nat {
    if n == 0 then 0
    else if KindIs(file, n - 1, Moov) then 0
    else Tracks(file, n - 1) + if KindIs(file, n - 1, Trak) then 1 else 0
  }

  lemma {:induction false} TracksCounted(file: seq<byte>, whole: seq<bool>)
    ensures Visited(file, whole).trak == Tracks(file, |whole|)
  {
    hide KindIn, LenOf, SizesIn, OffsetsIn, BoxStart;
    if whole != [] {
      TracksCounted(file, whole[..|whole| - 1]);
    }
  }

  // The track to play is that of the last alac box read since the last moov box.
  lemma {:induction false} PlayedIsLast(file: seq<byte>, whole: seq<bool>, k: nat)
    requires k < |whole| && whole[k] && KindIs(file, k, Alac)
    requires forall j :: k < j < |whole| ==> !KindIs(file, j, Moov) && !(KindIs(file, j, Alac) && whole[j])
    ensures Visited(file, whole).play == Tracks(file, k)
    decreases |whole|
  {
    hide KindIn, LenOf, SizesIn, OffsetsIn, BoxStart, Tracks;
    var n := |whole| - 1;
    if k < n {
      PlayedIsLast(file, whole[..n], k);
    } else {
      TracksCounted(file, whole[..n]);
    }
  }

  // Without one nothing is to be played.
  lemma {:induction false} NothingPlayed(file: seq<byte>, whole: seq<bool>)
    requires forall j :: 0 <= j < |whole| ==> !(KindIs(file, j, Alac) && whole[j])
    ensures Visited(file, whole).play == 0
  {
    hide KindIn, LenOf, SizesIn, OffsetsIn, BoxStart;
    if whole != [] {
      NothingPlayed(file, whole[..|whole| - 1]);
    }
  }

  // ---------------------------------------------------------------- chunks

  // Box k is a chunk offset box that was read for the track to play.
  ghost predicate OffsetsAt(file: seq<byte>, whole: seq<bool>, k: nat) {
    && k < |whole| && whole[k] && KindIs(file, k, Stco)
    && Visited(file, whole[..k]).play == Tracks(file, k)
  }

  // Box k is a sample-to-chunk box that was read.
  ghost predicate RunsAt(file: seq<byte>, whole: seq<bool>, k: nat) {
    k < |whole| && whole[k] && KindIs(file, k, Stsc)
  }

  // Other boxes leave the chunks, those for other tracks too.
  lemma ChunksStay(h: Header, kind: Kind, whole: bool, body: seq<byte>)
    requires kind != Stco || !whole || h.play != h.trak
    ensures var h' := Visit(h, kind, whole, body);
            h'.indexed == h.indexed && h'.track.offsets == h.track.offsets && h'.track.firsts == h.track.firsts
  {
    hide RunsIn, FirstsOf;
  }

  // The chunks are those of the last chunk offset box read for the track to play, with the table of samples
  // kept then.
  lemma {:induction false} ChunksAreLast(file: seq<byte>, whole: seq<bool>, k: nat)
    requires OffsetsAt(file, whole, k) && forall j :: k < j < |whole| ==> !OffsetsAt(file, whole, j)
    requires var h := Visited(file, whole[..k]); OffsetsIn(BodyAt(file, BoxStart(file, k)), h.stsc, h.track).Some?
    ensures var h, g := Visited(file, whole), Visited(file, whole[..k]);
            var t := OffsetsIn(BodyAt(file, BoxStart(file, k)), g.stsc, g.track).value;
            h.indexed && h.track.offsets == t.offsets && h.track.firsts == t.firsts
    decreases |whole|
  {
    hide KindIn, LenOf, SizesIn, OffsetsIn, BoxStart, Tracks, Visited, BodyAt;
    var n := |whole| - 1;
    assert whole[..n][..k] == whole[..k];
    TracksCounted(file, whole[..n]);
    LastVisit(file, whole);
    if k < n {
      forall j | k < j < n
        ensures !OffsetsAt(file, whole[..n], j)
      {
        assert whole[..n][..j] == whole[..j];
        assert !OffsetsAt(file, whole, j);
      }
      assert OffsetsAt(file, whole[..n], k);
      ChunksAreLast(file, whole[..n], k);
      assert !OffsetsAt(file, whole, n);
      if BoxStart(file, n) + 8 <= |file| {
        ChunksStay(Visited(file, whole[..n]), KindIn(HeadAt(file, BoxStart(file, n))), whole[n],
                   BodyAt(file, BoxStart(file, n)));
      }
    }
  }

  lemma LastVisit(file: seq<byte>, whole: seq<bool>)
    requires whole != []
    ensures var n := |whole| - 1;
            var p := BoxStart(file, n);
            Visited(file, whole) == if p + 8 > |file| then Visited(file, whole[..n])
                                    else
                                      Visit(Visited(file, whole[..n]), KindIn(HeadAt(file, p)), whole[n],
                                            BodyAt(file, p))
  {
    hide KindIn, LenOf, Visit, BoxStart;
  }

  // The table of samples kept is that of the last box with one read while the track to play had no chunks.
  lemma {:induction false} RunsAreLast(file: seq<byte>, whole: seq<bool>, k: nat)
    requires RunsAt(file, whole, k) && forall j :: k < j < |whole| ==> !RunsAt(file, whole, j)
    requires !Visited(file, whole).indexed && |BodyAt(file, BoxStart(file, k))| >= 12
    ensures Visited(file, whole).stsc == Some(BodyAt(file, BoxStart(file, k))[12..])
    decreases |whole|
  {
    hide KindIn, LenOf, SizesIn, OffsetsIn, BoxStart, Visited, BodyAt;
    var n := |whole| - 1;
    assert whole[..n][..k] == whole[..k];
    LastVisit(file, whole);
    if BoxStart(file, n) + 8 <= |file| {
      var p := BoxStart(file, n);
      RunsStay(Visited(file, whole[..n]), KindIn(HeadAt(file, p)), whole[n], BodyAt(file, p));
    }
    if k < n {
      forall j | k < j < n
        ensures !RunsAt(file, whole[..n], j)
      {
        assert !RunsAt(file, whole, j);
      }
      assert RunsAt(file, whole[..n], k);
      RunsAreLast(file, whole[..n], k);
      assert !RunsAt(file, whole, n);
    }
  }

  lemma RunsStay(h: Header, kind: Kind, whole: bool, body: seq<byte>)
    ensures var h' := Visit(h, kind, whole, body);
            && (h.indexed ==> h'.indexed)
            && (!h'.indexed ==> h'.stsc == if kind == Stsc && whole && |body| >= 12 then Some(body[12..]) else h.stsc)
  {
    hide RunsIn, SizesIn, FirstsOf;
  }

  // ---------------------------------------------------------------- names

  // The boxes waited for, by name; they are read whole, or passed over unread.
  lemma WaitedFor(name: string)
    requires |name| == 4
    ensures Waits(KindOf(name)) <==> name in ["esds", "stts", "stsc", "stsz", "stco", "----"]
  {
  }

  // Data begins at mdat alone.
  lemma DataNamed(name: string)
    requires |name| == 4
    ensures KindOf(name) == Mdat <==> name == "mdat"
  {
  }
}
