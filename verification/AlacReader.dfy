/** components/squeezelite/alac.c: reading the header of an MP4 stream and handing its samples to the
    decoder, over a FIFO that fills as the network delivers. */
module AlacReader {
  import opened Memory
  import opened StreamFifo
  import opened AlacTrack
  import opened BoxPolls
  import opened BoxWalk
  import opened Wrappers

  datatype Status = Running | Complete | Error

  // How a round of read_mp4_header's loop ended, with the bytes left in one piece.
  datatype Step = GoOn(left: nat) | Stop(found: Found)

  // alac_to_pcm: fails, or yields some frames.
  type Codec = seq<byte> -> Option<nat>

  lemma FirstOf(file: seq<byte>, from: nat, to: nat, n: nat)
    requires from + n <= to <= |file|
    ensures file[from..to][..n] == file[from..from + n]
  {
  }

  // Polls in front of which, since the poll before, the network delivered something if it could.
  function Brought(events: seq<Event>): bool {
    if events == [] then false
    else match events[|events| - 1]
      case Feed(n) => n > 0 || Brought(events[..|events| - 1])
      case Poll(_) => false
  }

  function Rounds(events: seq<Event>): nat {
    if events == [] then 0
    else
      var before := events[..|events| - 1];
      Rounds(before) + if events[|events| - 1].Poll? && Brought(before) then 1 else 0
  }

  // The decoder makes frames of every sample.
  ghost predicate Decodes(codec: Codec, t: Track, file: seq<byte>)
    requires Laid(t)
  {
    forall k :: 0 <= k < t.total ==> codec(Block(t, file, k)) !in {None, Some(0)}
  }

  // Samples that can be played, and a schedule with enough rounds to play them, under which the
  // connection stays up.
  ghost predicate LongEnough(codec: Codec, t: Track, file: seq<byte>, size: nat, events: seq<Event>)
    requires Laid(t)
  {
    && Playable(t, file, size) && Decodes(codec, t, file)
    && (forall e :: e in events && e.Poll? ==> e.connected)
    && Rounds(events) > 2 * |file| + t.total
  }

  // The two moves of the mdat branch end where Entered says.
  lemma EnteredAs(file: seq<byte>, size: nat, s: Spot, bytes: nat, t: Spot)
    requires Ready(file, size, s) && s.consume == 0 && 8 <= bytes <= Waiting(s)
    requires t.whole == s.whole && t.arrived == s.arrived && t.ends.writep == s.ends.writep
    requires var h := Visited(file, s.whole);
             var ahead := DataStart(h, s.pos) - (s.pos + 8);
             var r := At(s.ends.readp, size, 8);
             && t.found == (if h.play == 0 then Failed else Data)
             && if h.play == 0 || ahead > bytes - 8 then
                  && t.pos == s.pos + 8 && t.ends.readp == r
                  && t.consume == if h.play == 0 then 0 else ahead
                else
                  t.pos == s.pos + 8 + ahead && t.ends.readp == At(r, size, ahead) && t.consume == 0
    ensures t == Entered(file, size, s, bytes)
  {
    hide DataStart, Visited, BoxStart;
  }

  // The first block is decoded from in front of the first sample.
  ghost predicate TooEarly(t: Track, at: nat, seen: nat)
    requires Laid(t)
  {
    SizedAndStarted(t);
    at < t.offsets[0] && seen - at >= SizeOf(t, 0)
  }

  // ... and was all of its chunk, the next one being there already.
  ghost predicate JumpsAhead(t: Track, seen: nat)
    requires Laid(t)
  {
    SizedAndStarted(t);
    |t.firsts| > 1 && t.firsts[1] == 1 && t.offsets[1] <= seen
  }

  // What a listener hears who starts at file offset `at` with `seen` bytes delivered, and where the reader is then.
  ghost predicate Heard(t: Track, file: seq<byte>, at: nat, seen: nat, status: Status, blocks: seq<seq<byte>>,
                        pos: nat, arrived: nat, consume: nat)
    requires Laid(t)
  {
    SizedAndStarted(t);
    if TooEarly(t, at, seen) then
      && at + SizeOf(t, 0) <= |file| && 0 < |blocks| && blocks[0] == file[at..at + SizeOf(t, 0)]
      && (if JumpsAhead(t, seen) then
            |blocks| == 1 && (status == Running ==> pos + consume == t.offsets[1] + (t.offsets[0] - at))
          else
            Samples(t, file, 1, blocks[1..]))
    else
      && Samples(t, file, 0, blocks) && (status == Complete ==> |blocks| == t.total || pos == arrived)
      && (at == t.offsets[0] && seen - at >= SizeOf(t, 0) ==> blocks != [])
  }

  // Enough rounds bring every sample, if the decoder makes frames even of the wrong block.
  ghost predicate AllHeard(codec: Codec, t: Track, file: seq<byte>, at: nat, seen: nat, blocks: seq<seq<byte>>)
    requires Laid(t)
  {
    || |blocks| == t.total
    || (TooEarly(t, at, seen) && (JumpsAhead(t, seen) || blocks == [] || codec(blocks[0]) in {None, Some(0)}))
  }

  class Reader {
    const stream: StreamBuffer
    // The network side: the whole stream, and how much of it has been delivered.
    const file: seq<byte>
    var arrived: nat
    var pos: nat
    var consume: nat
    var header: Header
    var sample: nat
    var nextchunk: nat
    var blockIndex: nat
    // The boxes visited so far, and whether each could be read.
    ghost var whole: seq<bool>
    // Samples decoded so far; the source keeps no such count.
    var decoded: nat

    // pos is the number of bytes read from the stream; the FIFO holds what arrived after them.
    ghost predicate Held()
      reads this`pos, this`arrived, stream, stream.data
    {
      && stream.Valid()
      && pos <= arrived <= |file|
      && stream.Contents() == file[pos..arrived]
    }

    // ... and the write pointer is not left on the wrap, where unwrapping can put it.
    ghost predicate Synced()
      reads this`pos, this`arrived, stream, stream.data
    {
      Held() && !stream.Parked()
    }

    // Boxes are visited one after the other, and the header holds what they said.
    ghost predicate OnBox()
      reads this`pos, this`consume, this`header, this`whole
    {
      pos + consume == BoxStart(file, |whole|) && header == Visited(file, whole)
    }

    // The next sample starts at file offset p ...
    ghost predicate ReadingAt(p: int)
      reads this`header, this`sample, this`nextchunk, this`blockIndex, this`decoded
    {
      && 1 <= nextchunk && 0 <= p && Position(header.track, nextchunk - 1, decoded, p)
      && (nextchunk < |header.track.offsets| ==> sample == decoded + 1)
      && (header.track.defaultSize == 0 ==> blockIndex == decoded)
    }

    // ... where the bytes still to skip end.
    ghost predicate Reading()
      reads this`pos, this`consume, this`header, this`sample, this`nextchunk, this`blockIndex, this`decoded
    {
      ReadingAt(pos + consume)
    }

    function Available(): (n: nat)
      requires Synced()
      reads this`pos, this`arrived, stream, stream.data
      ensures n == arrived - pos && arrived <= |file|
    {
      stream.Used()
    }

    // Where the reader of the header is.
    ghost function Place(f: Found): Spot
      reads this`whole, this`pos, this`consume, this`arrived, stream`readp, stream`writep
    {
      Spot(whole, pos, consume, arrived, Ends(stream.readp, stream.writep), f)
    }

    lemma PlaceReady()
      requires Synced() && OnBox()
      ensures Ready(file, stream.size, Place(More)) && Piece() == Seen(Place(More), stream.size)
    {
    }

    // What one event, and a schedule of them, makes of it.
    ghost function Then(e: Event, grant: Grant): Spot
      requires Synced() && OnBox() && Bounded(grant)
      reads this`pos, this`consume, this`header, this`whole, this`arrived, stream, stream.data
    {
      PlaceReady();
      Next(file, stream.size, Place(More), e, grant)
    }

    ghost function Run(events: seq<Event>, grants: nat -> Grant): Spot
      requires Synced() && OnBox() && AllBounded(grants)
      reads this`pos, this`consume, this`header, this`whole, this`arrived, stream, stream.data
    {
      PlaceReady();
      After(file, stream.size, Place(More), events, grants)
    }

    // What is left to do of a call of read_mp4_header with so many bytes of the piece before the wrap.
    ghost function Rest(bytes: nat, grant: Grant): Spot
      requires Synced() && OnBox() && consume == 0 && bytes <= Piece() && Bounded(grant)
      reads this`pos, this`consume, this`header, this`whole, this`arrived, stream, stream.data
    {
      PlaceReady();
      Scan(file, stream.size, Place(More), bytes, grant)
    }

    lemma Bounds()
      requires Held()
      ensures pos <= arrived <= |file|
    {
    }

    // How many of them lie in one piece before the wrap.
    function Piece(): (n: nat)
      requires Held()
      reads this`pos, this`arrived, stream, stream.data
      ensures pos + n <= arrived <= |file|
    {
      stream.ContRead()
    }

    constructor (stream: StreamBuffer, file: seq<byte>)
      requires stream.Valid() && !stream.Parked() && stream.Contents() == []
      ensures Synced() && OnBox() && arrived == pos == consume == 0
      ensures this.stream == stream && this.file == file && whole == [] && arrived == 0
      ensures stream.readp == stream.writep == 0 ==> Place(More) == Spot([], 0, 0, 0, Ends(0, 0), More)
    {
      this.stream, this.file := stream, file;
      arrived, pos, consume, sample, nextchunk, blockIndex, decoded := 0, 0, 0, 0, 0, 0, 0;
      header, whole := NO_HEADER, [];
    }

    // The stream thread stores what the network has, as far as one pass of it goes.
    method Arrive(n: nat)
      requires Synced()
      modifies this`arrived, stream`writep, stream.data
      ensures Synced()
      ensures arrived == old(arrived) + Min(n, Min(old(stream.Room()), |file| - old(arrived)))
      ensures stream.readp == old(stream.readp)
      ensures stream.writep == At(old(stream.writep), stream.wrap, arrived - old(arrived))
    {
      hide Ring;
      var m := Min(n, Min(stream.Room(), |file| - arrived));
      assert file[pos..arrived] + file[arrived..arrived + m] == file[pos..arrived + m];
      stream.Append(file[arrived..arrived + m]);
      arrived := arrived + m;
    }

    // Reading on: both counts move together.
    method Advance(n: nat)
      requires Synced() && n <= Available()
      modifies this`pos, stream`readp
      ensures Synced() && pos == old(pos) + n
      ensures Piece() >= old(Piece()) - n && stream.readp == At(old(stream.readp), stream.size, n)
    {
      hide Ring;
      assert file[pos..arrived][n..] == file[pos + n..arrived];
      stream.IncReadp(n);
      pos := pos + n;
    }

    // The next n bytes in one piece, copied together when they wrap.
    method Contiguous(n: nat) returns (b: seq<byte>)
      requires Synced() && n <= Available()
      ensures b == file[pos..pos + n]
    {
      var bytes := Min(stream.Used(), Piece());
      ghost var s := stream.Contents();
      if bytes < n {
        RingInTwo(stream.data[..], stream.readp, stream.writep, stream.wrap, n);
        b := stream.data[stream.readp..stream.readp + bytes] + stream.data[..n - bytes];
      } else {
        b := stream.data[stream.readp..stream.readp + n];
        assert b == s[..bytes][..n] == s[..n];
      }
      FirstOf(file, pos, arrived, n);
    }

    // The first bytes of the piece before the wrap.
    method Peek(n: nat) returns (b: seq<byte>)
      requires Synced() && n <= Piece()
      ensures pos + n <= arrived <= |file| && b == file[pos..pos + n]
    {
      b := stream.data[stream.readp..stream.readp + n];
      assert stream.Contents()[..Piece()][..n] == b;
      FirstOf(file, pos, arrived, Piece());
      FirstOf(file, pos, pos + Piece(), n);
    }

    // The mdat branch: on to the first chunk of the track to play, now or later.
    method EnterData(left: nat) returns (found: Found)
      requires Synced() && OnBox() && consume == 0 && 8 <= left <= Available()
      modifies this`pos, this`consume, this`sample, this`nextchunk, this`blockIndex, this`decoded, stream`readp
      ensures Synced() && found == (if header.play > 0 then Data else Failed)
      ensures found == Data ==> AtData(old(pos))
      ensures Ready(file, stream.size, old(Place(More)))
      ensures Place(found) == Entered(file, stream.size, old(Place(More)), left)
    {
      hide Reader.Held, DataStart, BoxStart, Visited, Ring, At, Span, Entered, StreamBuffer.Used;
      PlaceReady();
      ghost var s, size := Place(More), stream.size;
      Advance(8);
      if header.play == 0 {
        EnteredAs(file, size, s, left, Place(Failed));
        return Failed;
      }
      ToFirstChunk(left - 8);
      sample, nextchunk := 1, 1;
      blockIndex, decoded := 0, 0;
      found := Data;
      EnteredAs(file, size, s, left, Place(Data));
    }

    // Skips what is there of the bytes in front of the first chunk, if all of them are.
    method ToFirstChunk(left: nat)
      requires Synced() && consume == 0 && left <= Available() && pos >= 8
      modifies this`pos, this`consume, stream`readp
      ensures Synced() && pos + consume == DataStart(header, old(pos) - 8)
      ensures var ahead := DataStart(header, old(pos) - 8) - old(pos);
              if ahead <= left then pos == old(pos) + ahead && stream.readp == At(old(stream.readp), stream.size, ahead)
              else pos == old(pos) && stream.readp == old(stream.readp)
    {
      hide Reader.Held;
      EndsInRing();
      if header.indexed && header.track.offsets != [] && header.track.offsets[0] > pos {
        var skip := header.track.offsets[0] - pos;
        if skip <= left {
          Advance(skip);
        } else {
          consume := skip;
        }
      }
    }

    // Making room for a box cut short by the wrap; false when that would move a negative number of bytes.
    method MakeContiguous(len: nat, grant: Grant) returns (defined: bool)
      requires Synced() && Bounded(grant)
      modifies stream`readp, stream`writep, stream.data
      ensures Held() && (defined <==> !old(stream.Undefined(len, 1, grant)))
      ensures old(InRing(Ends(stream.readp, stream.writep), stream.size))
      ensures defined ==> Ends(stream.readp, stream.writep)
                          == Straightened(old(Ends(stream.readp, stream.writep)), stream.size, len, 1, grant)
      ensures !defined ==> stream.readp == old(stream.readp) && stream.writep == old(stream.writep)
    {
      hide Ring;
      defined := stream.Unwrap(len, 1, grant);
    }

    // A box cut short that is to be read whole.
    method AwaitBox(len: nat, grant: Grant) returns (found: Found)
      requires Synced() && Bounded(grant)
      modifies stream`readp, stream`writep, stream.data
      ensures Held() && old(InRing(Ends(stream.readp, stream.writep), stream.size))
      ensures var p := old(Ends(stream.readp, stream.writep));
              && found == (if len > stream.size then Failed
                           else if UndefinedAt(p, stream.size, len, 1, grant) then Undefined else More)
              && Ends(stream.readp, stream.writep)
                 == if found == More then Straightened(p, stream.size, len, 1, grant) else p
    {
      hide Ring, Straightened, UndefinedAt, Reader.Held;
      EndsInRing();
      if len > stream.size {
        return Failed;
      }
      var defined := MakeContiguous(len, grant);
      found := if defined then More else Undefined;
    }

    lemma RoomIs()
      requires Synced()
      ensures stream.wrap == stream.size
      ensures stream.Room()
           == Min(stream.size - 1 - (arrived - pos),
                  if stream.writep >= stream.readp then stream.size - stream.writep else stream.readp - stream.writep)
    {
    }

    lemma WrapIs()
      requires Held()
      ensures stream.wrap == stream.size
    {
    }

    lemma EndsInRing()
      requires Held()
      ensures InRing(Ends(stream.readp, stream.writep), stream.size)
    {
    }

    // The rest of a round of read_mp4_header's loop for boxes other than mdat.
    method PassBox(bytes: nat, kind: Kind, len: nat, body: seq<byte>, grant: Grant) returns (step: Step)
      requires Synced() && OnBox() && consume == 0 && 8 <= bytes <= Piece() && Bounded(grant)
      requires kind == KindIn(HeadAt(file, pos)) && len == LenOf(HeadAt(file, pos)) && 8 <= len && kind != Mdat
      requires bytes > len ==> body == BodyAt(file, pos)
      modifies this`pos, this`consume, this`header, this`whole, stream`readp, stream`writep, stream.data
      ensures Held() && OnBox() && old(whole) <= whole && (consume > 0 || step.GoOn? ==> Synced())
      ensures Ready(file, stream.size, old(Place(More))) && bytes <= Waiting(old(Place(More)))
      ensures if bytes >= StepOver(kind, len) then
                && step == GoOn(bytes - StepOver(kind, len)) && step.left <= Piece() && consume == 0
                && Place(More)
                   == BoxPolls.Over(file, stream.size, old(Place(More)), StepOver(kind, len), 0, bytes > len)
              else
                && step.Stop? && step.found != Data
                && Place(step.found) == CutOff(file, stream.size, old(Place(More)), bytes, kind, len, grant)
    {
      hide Ring, Reader.Held, BoxStart, Visited, KindIn, LenOf, StepOver, Waits, Visit, Straightened, UndefinedAt;
      PlaceReady();
      OneBox(file, whole, bytes > len, body);
      var h := Look(header, kind, bytes > len, body);
      var n := StepOver(kind, len);
      if bytes >= n {
        Over(n, 0, h, bytes > len);
        return GoOn(bytes - n);
      }
      if !Waits(kind) {
        Over(bytes, n - bytes, h, bytes > len);
        return Stop(More);
      }
      WaitsChangesNothing(header, kind, len, body);
      var found := AwaitBox(len, grant);
      step := Stop(found);
    }

    // On to the next box, `now` bytes at once and the others later.
    method Over(now: nat, later: nat, h: Header, ghost flag: bool)
      requires Synced() && now <= Piece()
      modifies this`pos, this`consume, this`header, this`whole, stream`readp
      ensures Synced() && pos == old(pos) + now && consume == later && header == h && whole == old(whole) + [flag]
      ensures Piece() >= old(Piece()) - now && stream.readp == At(old(stream.readp), stream.size, now)
    {
      hide Reader.Held;
      Advance(now);
      consume, header, whole := later, h, whole + [flag];
    }

    // One round of read_mp4_header's loop, with `bytes` left of the piece before the wrap.
    method ReadBox(bytes: nat, grant: Grant) returns (step: Step)
      requires Synced() && OnBox() && consume == 0 && Sane(file) && 8 <= bytes <= Piece() && Bounded(grant)
      modifies this`pos, this`consume, this`header, this`whole
      modifies this`sample, this`nextchunk, this`blockIndex, this`decoded
      modifies stream`readp, stream`writep, stream.data
      ensures Held() && old(whole) <= whole
      ensures match step
              case GoOn(left) =>
                && Synced() && OnBox() && consume == 0 && left < bytes && left <= Piece()
                && Rest(left, grant) == old(Rest(bytes, grant))
              case Stop(f) =>
                && (f == More ==> OnBox())
                && (f == Data ==> Synced() && header.play > 0 && header == Visited(file, whole))
                && (f == Data ==> AtData(BoxStart(file, |whole|)))
                && Place(f) == old(Rest(bytes, grant))
    {
      hide Ring, Reader.Held, Reader.AtData, Sane, BoxStart, Visited, KindIn, LenOf, StepOver, Waits, Visit;
      hide Straightened, Scan, BoxPolls.Over, CutOff, Entered, StreamBuffer.ContRead, StreamBuffer.Used;
      PlaceReady();
      var head := Peek(8);
      SaneAt(file, |whole|);
      var kind, len := KindIn(head), LenOf(head);
      if kind == Mdat {
        ScanEnters(file, stream.size, Place(More), bytes, grant);
        var found := EnterData(bytes);
        return Stop(found);
      }
      var body := Peek(Min(len, bytes));
      RestIs(bytes, grant);
      step := PassBox(bytes, kind, len, body, grant);
    }

    // What a round leaves to do.
    lemma RestIs(bytes: nat, grant: Grant)
      requires Synced() && OnBox() && consume == 0 && 8 <= bytes <= Piece() && Bounded(grant)
      requires pos + 8 <= |file| && KindIn(HeadAt(file, pos)) != Mdat && LenOf(HeadAt(file, pos)) >= 8
      ensures Ready(file, stream.size, Place(More)) && bytes <= Seen(Place(More), stream.size)
      ensures var kind, len := KindIn(HeadAt(file, pos)), LenOf(HeadAt(file, pos));
              if bytes < StepOver(kind, len) then
                Rest(bytes, grant) == CutOff(file, stream.size, Place(More), bytes, kind, len, grant)
              else
                var t := BoxPolls.Over(file, stream.size, Place(More), StepOver(kind, len), 0, bytes > len);
                && Ready(file, stream.size, t) && t.consume == 0
                && bytes - StepOver(kind, len) <= Seen(t, stream.size)
                && Rest(bytes, grant) == Scan(file, stream.size, t, bytes - StepOver(kind, len), grant)
    {
      hide Ring, Reader.Held, BoxStart, Visited, KindIn, LenOf, StepOver, Scan, BoxPolls.Over, CutOff;
      PlaceReady();
      if bytes >= StepOver(KindIn(HeadAt(file, pos)), LenOf(HeadAt(file, pos))) {
        ScanOver(file, stream.size, Place(More), bytes, grant);
      } else {
        ScanCuts(file, stream.size, Place(More), bytes, grant);
      }
    }

    // Entering the data of an mdat box at p.
    ghost predicate AtData(p: nat)
      reads this`pos, this`consume, this`header, this`sample, this`nextchunk, this`blockIndex, this`decoded
    {
      pos + consume == DataStart(header, p) && sample == nextchunk == 1 && blockIndex == decoded == 0
    }

    // read_mp4_header.
    method ReadHeader(grant: Grant) returns (found: Found)
      requires Synced() && OnBox() && consume == 0 && Sane(file) && Bounded(grant)
      modifies this`pos, this`consume, this`header, this`whole
      modifies this`sample, this`nextchunk, this`blockIndex, this`decoded
      modifies stream`readp, stream`writep, stream.data
      ensures Held() && old(whole) <= whole && (found == More ==> OnBox())
      ensures found == Data ==> Synced() && header.play > 0 && header == Visited(file, whole)
      ensures found == Data ==> AtData(BoxStart(file, |whole|))
      ensures Place(found) == old(Rest(Piece(), grant))
    {
      hide Ring, Reader.Held, Reader.AtData, Sane, BoxStart, Visited, KindIn, LenOf, Visit;
      var bytes := Min(Available(), Piece());
      PieceIs();
      while bytes >= 8
        invariant Synced() && OnBox() && consume == 0 && old(whole) <= whole && 0 <= bytes <= Piece()
        invariant Rest(bytes, grant) == old(Rest(Piece(), grant))
      {
        var step := ReadBox(bytes, grant);
        match step {
          case GoOn(left) =>
            bytes := left;
          case Stop(f) =>
            return f;
        }
      }
      found := More;
    }

    lemma PieceIs()
      requires Synced()
      ensures Min(Available(), Piece()) == Piece()
    {
    }

    // The bytes before the data an offset points to are dropped as they arrive.
    method Skip()
      requires Synced() && consume > 0
      modifies this`pos, this`consume, stream`readp
      ensures Synced() && pos + consume == old(pos + consume)
      ensures pos == old(pos) + Min(old(consume), old(Available()))
      ensures stream.readp == At(old(stream.readp), stream.size, pos - old(pos))
    {
      hide Reader.Synced;
      var n := Min(consume, Available());
      Advance(n);
      consume := consume - n;
    }

    // Skips now if the bytes are there, and then what was still to skip besides; else later, and what was
    // still to skip is forgotten.
    method SkipTo(offset: nat)
      requires Synced() && pos <= offset
      modifies this`pos, this`consume, stream`readp
      ensures Synced() && pos >= old(pos)
      ensures pos + consume == offset + (if offset <= arrived then old(consume) else 0)
    {
      hide Reader.Synced;
      var skip := offset - pos;
      if Available() >= skip {
        Advance(skip);
      } else {
        consume := skip;
      }
    }

    // The next sample is the last of a chunk that another one follows.
    predicate EndsChunk()
      reads this`header, this`nextchunk, this`decoded
    {
      && nextchunk < |header.track.offsets| && nextchunk < |header.track.firsts|
      && decoded + 1 == header.track.firsts[nextchunk]
    }

    // How far behind the next sample a decoded block leaves the reader: bytes still to skip are skipped
    // again after the jump to the next chunk, if that is there already.
    function Excess(): nat
      reads this`arrived, this`consume, this`header, this`nextchunk, this`decoded
    {
      if EndsChunk() && header.track.offsets[nextchunk] <= arrived then consume else 0
    }

    // The part of alac_decode behind the header. `block` is what the decoder was given, if anything:
    // the bytes at pos, which are the next sample only when nothing is left to skip.
    // With a table of sizes the reader may run past the last sample, but only when the stream is over.
    method Decode(connected: bool, codec: Codec) returns (status: Status, block: Option<seq<byte>>)
      requires Synced() && Reading()
      requires decoded < header.track.total || (!connected && header.track.defaultSize == 0)
      modifies this`pos, this`consume, this`sample, this`nextchunk, this`blockIndex, this`decoded, stream`readp
      ensures Synced()
      ensures status != Error && block.None? ==> Reading()
      ensures status == Running && block.Some? ==> ReadingAt(pos + consume - old(Excess()))
      ensures status == Complete <==> !connected && (old(pos) == arrived || old(decoded) == header.track.total)
      ensures block.Some? <==>
              old(decoded) < header.track.total && arrived - old(pos) >= SizeOf(header.track, old(decoded))
      ensures block.Some? ==> old(pos) + SizeOf(header.track, old(decoded)) <= |file|
      ensures block.Some? ==> block.value == file[old(pos)..old(pos) + SizeOf(header.track, old(decoded))]
      ensures block.Some? && old(consume) == 0 ==> block.value == Block(header.track, file, old(decoded))
      ensures status == Error <==>
              block.Some? && (codec(block.value) == None || (codec(block.value) == Some(0) && !old(EndsChunk())))
      ensures pos >= old(pos) && (block.None? ==> pos == old(pos) && consume == old(consume))
      ensures status == Complete ==> block.None?
      ensures decoded == old(decoded) + (if status == Running && block.Some? then 1 else 0)
    {
      hide Reader.Synced, Position, Laid, Extent, Block;
      PositionFacts(header.track, nextchunk - 1, decoded, pos + consume);
      var bytes := Available();
      var blockSize :=
        if header.track.defaultSize > 0 then header.track.defaultSize else header.track.sizes[blockIndex];
      if !connected && (bytes == 0 || blockSize == 0) {
        return Complete, None;
      }
      if bytes < blockSize {
        return Running, None;
      }
      var data := Contiguous(blockSize);
      if consume == 0 {
        BlockBytes();
      }
      block := Some(data);
      var frames := codec(data);
      if frames.None? {
        if blockSize != header.track.defaultSize {
          blockIndex := blockIndex + 1;
        }
        return Error, block;
      }
      status := NextBlock(blockSize, frames.value);
    }

    lemma BlockBytes()
      requires Synced() && Reading() && consume == 0 && decoded < header.track.total
      requires SizeOf(header.track, decoded) <= Available()
      ensures Block(header.track, file, decoded) == file[pos..pos + SizeOf(header.track, decoded)]
    {
      hide Position, Laid, Extent;
      PositionFacts(header.track, nextchunk - 1, decoded, pos);
      PositionIsBlockStart(header.track, nextchunk - 1, decoded, pos);
    }

    // From the last sample of a chunk to the next chunk, which cannot lie behind.
    method NextChunk(offset: nat) returns (status: Status)
      requires Synced() && nextchunk >= 1 && Position(header.track, nextchunk - 1, decoded, pos + consume)
      requires EndsChunk() && offset == header.track.offsets[nextchunk]
      modifies this`pos, this`consume, this`nextchunk, this`decoded, stream`readp
      ensures Synced() && status == Running && pos >= old(pos)
      ensures nextchunk == old(nextchunk) + 1 && decoded == old(decoded) + 1
      ensures pos + consume == offset + old(Excess()) && Position(header.track, nextchunk - 1, decoded, offset)
    {
      hide Reader.Synced, Position, Laid, Extent;
      PositionFacts(header.track, nextchunk - 1, decoded, pos + consume);
      StepAcross(header.track, nextchunk - 1, decoded, pos + consume);
      if offset > pos {
        SkipTo(offset);
        nextchunk := nextchunk + 1;
        decoded := decoded + 1;
        status := Running;
      } else {
        status := Error;
      }
    }

    // From a sample to the next one of the chunk.
    method NextSample(blockSize: nat)
      requires Synced() && nextchunk >= 1 && Position(header.track, nextchunk - 1, decoded, pos + consume)
      requires decoded < header.track.total && !EndsChunk()
      requires Sized(header.track) && blockSize == SizeOf(header.track, decoded) <= Available()
      modifies this`pos, this`decoded, stream`readp
      ensures Synced() && decoded == old(decoded) + 1 && pos >= old(pos)
      ensures Position(header.track, nextchunk - 1, decoded, pos + consume)
    {
      hide Reader.Held, Position, Laid, Extent;
      PositionFacts(header.track, nextchunk - 1, decoded, pos + consume);
      StepWithin(header.track, nextchunk - 1, decoded, pos + consume);
      Advance(blockSize);
      decoded := decoded + 1;
    }

    // The end of alac_decode: on to the next sample, or to the next chunk after the last of one.
    // Between chunks it does not matter how many frames came out.
    method NextBlock(blockSize: nat, frames: nat) returns (status: Status)
      requires Synced() && Reading() && decoded < header.track.total
      requires blockSize == SizeOf(header.track, decoded) <= Available()
      modifies this`pos, this`consume, this`sample, this`nextchunk, this`blockIndex, this`decoded, stream`readp
      ensures Synced() && pos >= old(pos) && status == (if frames == 0 && !old(EndsChunk()) then Error else Running)
      ensures status == Error ==> decoded == old(decoded)
      ensures status == Running ==> ReadingAt(pos + consume - old(Excess())) && decoded == old(decoded) + 1
    {
      hide Reader.Synced, Position, Laid, Extent;
      PositionFacts(header.track, nextchunk - 1, decoded, pos + consume);
      if blockSize != header.track.defaultSize {
        blockIndex := blockIndex + 1;
      }
      var offset := if nextchunk < |header.track.offsets| then header.track.offsets[nextchunk] else 0;
      var last := offset != 0 && sample == header.track.firsts[nextchunk];
      if offset != 0 {
        sample := sample + 1;
      }
      if last {
        status := NextChunk(offset);
      } else if frames > 0 {
        NextSample(blockSize);
        status := Running;
      } else {
        status := Error;
      }
    }

    // Every sample is decoded and the reader cannot tell: it would go on into whatever follows.
    predicate PastEnd(e: Event)
      reads this`consume, this`header, this`decoded
    {
      e.Poll? && consume == 0 && decoded == header.track.total && (e.connected || header.track.defaultSize > 0)
    }

    // Bytes still to come, bytes still to read and samples still to decode.
    ghost function Left(): int
      reads this`arrived, this`pos, this`header, this`decoded
    {
      (|file| - arrived) + (|file| - pos) + (header.track.total - decoded)
    }

    // Nothing more can arrive before something is read.
    ghost predicate Ripe()
      reads this`arrived, this`pos, stream`size
    {
      arrived == |file| || arrived - pos == stream.size - 1
    }

    // A delivery brings something unless nothing more can come.
    method Deliver(n: nat)
      requires Synced() && Reading()
      modifies this`arrived, stream`writep, stream.data
      ensures Synced() && Reading() && arrived >= old(arrived)
      ensures n > 0 ==> arrived > old(arrived) || Ripe()
      ensures old(Ripe()) ==> Ripe()
    {
      hide Ring;
      assert stream.Used() == arrived - pos;
      Arrive(n);
    }

    // A call of alac_decode. When nothing more can come before something is read, it skips something or
    // decodes a sample.
    method Call(connected: bool, codec: Codec) returns (status: Status, block: Option<seq<byte>>)
      requires Synced() && Reading() && !PastEnd(Poll(connected))
      modifies this`pos, this`consume, this`sample, this`nextchunk, this`blockIndex, this`decoded, stream`readp
      ensures Synced() && (status != Error ==> Reading())
      ensures decoded == old(decoded) + (if status == Running && block.Some? then 1 else 0)
      ensures block.Some? <==>
              old(consume) == 0 && old(decoded) < header.track.total
              && arrived - old(pos) >= SizeOf(header.track, old(decoded))
      ensures block.Some? ==> block.value == Block(header.track, file, old(decoded))
                              && |block.value| == SizeOf(header.track, old(decoded))
      ensures status == Complete ==> !connected && block.None? && (pos == arrived || decoded == header.track.total)
      ensures status == Error ==> block.Some? && codec(block.value) in {None, Some(0)}
      ensures pos >= old(pos)
      ensures (connected && old(Ripe()) && old(decoded) < header.track.total
               && Playable(header.track, file, stream.size) && status != Error) ==>
                pos > old(pos) || decoded > old(decoded)
    {
      hide Reader.Held, Position, Laid, Extent, Block, Playable;
      Bounds();
      PositionFacts(header.track, nextchunk - 1, decoded, pos + consume);
      if connected && decoded < header.track.total && Playable(header.track, file, stream.size) {
        PlayableAt(header.track, file, stream.size, nextchunk - 1, decoded, pos + consume);
      }
      if consume > 0 {
        Skip();
        return Running, None;
      }
      status, block := Decode(connected, codec);
    }

    // One delivery, or one call.
    method Handle(e: Event, codec: Codec) returns (status: Status, block: Option<seq<byte>>)
      requires Synced() && Reading() && !PastEnd(e)
      modifies this`arrived, this`pos, this`consume, this`sample, this`nextchunk, this`blockIndex, this`decoded
      modifies stream`readp, stream`writep, stream.data
      ensures Synced() && (status != Error ==> Reading())
      ensures decoded == old(decoded) + (if status == Running && block.Some? then 1 else 0)
      ensures block.Some? <==>
              e.Poll? && old(consume) == 0 && old(decoded) < header.track.total
              && old(arrived - pos) >= SizeOf(header.track, old(decoded))
      ensures block.Some? ==> block.value == Block(header.track, file, old(decoded))
                              && |block.value| == SizeOf(header.track, old(decoded))
      ensures status == Complete ==>
                e == Poll(false) && block.None? && (pos == arrived || decoded == header.track.total)
      ensures status == Error ==> block.Some? && codec(block.value) in {None, Some(0)}
      ensures Left() <= old(Left())
      ensures e.Feed? && e.n > 0 ==> Left() < old(Left()) || Ripe()
      ensures e.Feed? && old(Ripe()) ==> Ripe()
      ensures (e == Poll(true) && old(Ripe()) && old(decoded) < header.track.total
               && Playable(header.track, file, stream.size) && status != Error) ==> Left() < old(Left())
    {
      hide Reader.Held, Reader.Reading, Reader.Ripe, Position, Laid, Extent, Block, Playable;
      match e {
        case Feed(n) =>
          Deliver(n);
          return Running, None;
        case Poll(connected) =>
          status, block := Call(connected, codec);
      }
    }

    // Whatever arrives when, the blocks the decoder sees are the samples of the track in order, each
    // whole. Playing stops at an error, at the end of the stream, or when every sample is decoded. If the
    // samples are all there, fit the buffer and can be decoded, enough rounds of deliveries and calls
    // decode them all.
    method Play(events: seq<Event>, codec: Codec) returns (status: Status, blocks: seq<seq<byte>>)
      requires Synced() && Reading()
      modifies this`arrived, this`pos, this`consume, this`sample, this`nextchunk, this`blockIndex, this`decoded
      modifies stream`readp, stream`writep, stream.data
      ensures Synced() && (status != Error ==> Reading())
      ensures old(decoded) + |blocks| == decoded + (if status == Error then 1 else 0) <= header.track.total
      ensures Samples(header.track, file, old(decoded), blocks)
      ensures status == Complete ==> decoded == header.track.total || pos == arrived
      ensures status == Error ==> blocks != [] && codec(blocks[|blocks| - 1]) in {None, Some(0)}
      ensures Playable(header.track, file, stream.size) && Decodes(codec, header.track, file)
              && (forall e :: e in events && e.Poll? ==> e.connected) && Rounds(events) > old(Left()) ==>
                status == Running && decoded == header.track.total
    {
      hide Reader.Synced, Reader.Reading, Position, Laid, Extent, Block, Samples, Playable, Decodes;
      hide Rounds, Brought, Reader.Left, Reader.Ripe, Goes;
      ReadingFacts();
      NoSamples(header.track, file, decoded);
      ghost var sure := Playable(header.track, file, stream.size) && Decodes(codec, header.track, file)
                        && forall e :: e in events && e.Poll? ==> e.connected;
      status, blocks := Running, [];
      NoRounds();
      GoesFirst(Left(), Ripe());
      var i := 0;
      while i < |events|
        invariant 0 <= i <= |events| && Synced() && Reading()
        invariant status == Running && old(decoded) + |blocks| == decoded <= header.track.total
        invariant Samples(header.track, file, old(decoded), blocks)
        invariant sure && decoded < header.track.total ==>
                    Goes(old(Left()), Left(), Rounds(events[..i]), Brought(events[..i]), Ripe())
      {
        ghost var left, ripe := Left(), Ripe();
        if PastEnd(events[i]) {
          return;
        }
        OneRound(events, i);
        var block;
        status, block := Handle(events[i], codec);
        GoesOn(old(Left()), left, Left(), Rounds(events[..i]), Brought(events[..i]), ripe, Ripe(), events[i],
               Rounds(events[..i + 1]), Brought(events[..i + 1]));
        if block.Some? {
          OneMore(header.track, file, old(decoded), blocks, block.value);
          blocks := blocks + [block.value];
        }
        if status != Running {
          if sure {
            Decoded(codec, header.track, file, old(decoded) + |blocks| - 1);
          }
          return;
        }
        i := i + 1;
      }
      assert events[..|events|] == events;
      ReadingFacts();
      GoesFar(old(Left()), Left(), Rounds(events), Brought(events), Ripe());
    }

    lemma ReadingFacts()
      requires Synced() && Reading()
      ensures Laid(header.track) && decoded <= header.track.total && Left() >= 0
    {
      hide Laid;
      PositionFacts(header.track, nextchunk - 1, decoded, pos + consume);
    }

    // ---------------------------------------------------------------- the header

    // One event before the media data is met.
    method HandleHeader(e: Event, grant: Grant) returns (found: Found)
      requires Synced() && OnBox() && Sane(file) && Bounded(grant)
      modifies this`arrived, this`pos, this`consume, this`header, this`whole
      modifies this`sample, this`nextchunk, this`blockIndex, this`decoded
      modifies stream`readp, stream`writep, stream.data
      ensures Held() && old(whole) <= whole && (found == More ==> OnBox()) && (found == Data ==> e.Poll?)
      ensures found == Data ==> Synced() && header.play > 0 && header == Visited(file, whole)
      ensures found == Data ==> AtData(BoxStart(file, |whole|))
      ensures found == More && !AtWrap(Place(More), stream.size) ==> Synced()
      ensures Place(found) == old(Then(e, grant))
    {
      hide Ring, Reader.Held, Reader.AtData, Sane, BoxStart, Visited, Scan, StreamBuffer.Room;
      PlaceReady();
      found := More;
      if e.Feed? {
        RoomIs();
        Arrive(e.n);
      } else if consume > 0 {
        Skip();
      } else {
        found := ReadHeader(grant);
      }
      WrapIs();
    }

    // Any schedule leaves the reader of the header where After says, with the boxes read it says, visited in
    // file order. It stops in the middle of the call that meets the media data, at a failure, or when
    // unwrapping leaves no room to write to; `used` counts the events up to there.
    method Open(events: seq<Event>, grants: nat -> Grant) returns (found: Found, used: nat)
      requires Synced() && OnBox() && Sane(file) && AllBounded(grants)
      modifies this`arrived, this`pos, this`consume, this`header, this`whole
      modifies this`sample, this`nextchunk, this`blockIndex, this`decoded
      modifies stream`readp, stream`writep, stream.data
      ensures Held() && used <= |events| && old(whole) <= whole
      ensures Place(found) == old(Run(events, grants)) == old(Run(events[..used], grants))
      ensures found == More ==> OnBox() && (AtWrap(Place(More), stream.size) || (Synced() && used == |events|))
      ensures found != More ==> 0 < used && old(Run(events[..used - 1], grants)).found == More
      ensures found == Data ==> events[used - 1].Poll? && Synced() && header.play > 0 && header == Visited(file, whole)
      ensures found == Data ==> AtData(BoxStart(file, |whole|))
    {
      hide Reader.Held, Reader.OnBox, Reader.AtData, Sane, BoxStart, Visited, Proper, Next;
      PlaceReady();
      ghost var s := Place(More);
      found, used := More, 0;
      assert events[..0] == [];
      while used < |events|
        invariant used <= |events| && Synced() && OnBox() && old(whole) <= whole && found == More
        invariant Place(More) == After(file, stream.size, s, events[..used], grants)
      {
        AfterOne(file, stream.size, s, events, grants, used);
        found := HandleHeader(events[used], grants(used));
        used := used + 1;
        WrapIs();
        if found != More || stream.Parked() {
          Settled(file, stream.size, s, events, grants, used);
          return;
        }
      }
      assert events[..used] == events;
    }

    // At the media data, the next sample is the first one exactly when its chunk lies behind the mdat
    // header.
    lemma DataIsReading(p: nat)
      requires AtData(p) && header.indexed && Laid(header.track)
      ensures Reading() <==> p + 8 <= header.track.offsets[0]
      ensures Reading() <==> pos + consume == header.track.offsets[0]
    {
      Start(header.track, pos + consume);
    }

    // ---------------------------------------------------------------- the whole file

    // From the first byte of the file on. The call of alac_decode that meets the media data, at pos
    // `at` with `seen` bytes delivered, goes on to decode: when the first chunk is still to be skipped to
    // but enough bytes for the first sample are there, the decoder gets the wrong ones first. But for that
    // block, when the chunks lie behind the mdat header, it gets the samples of the track that the tables
    // in the file describe, from the first one on, under every schedule that missed no box; and all of
    // them, given enough rounds. After the wrong block the reader is right again, unless the block was the
    // only one of its chunk and the next chunk was there too: then it is as far beyond the next sample as it
    // was in front of the first one.
    method Listen(events: seq<Event>, grants: nat -> Grant, codec: Codec)
        returns (found: Found, used: nat, status: Status, blocks: seq<seq<byte>>, at: nat, seen: nat)
      requires Synced() && OnBox() && Sane(file) && AllBounded(grants)
      modifies this`arrived, this`pos, this`consume, this`header, this`whole
      modifies this`sample, this`nextchunk, this`blockIndex, this`decoded
      modifies stream`readp, stream`writep, stream.data
      ensures used <= |events| && at <= seen <= |file|
      ensures var t := old(Run(events, grants));
              t.found == found && t.whole == whole && t.pos == at && t.arrived == seen
      ensures old(Run(events[..used], grants)).found == found
      ensures found != More ==> 0 < used && old(Run(events[..used - 1], grants)).found == More
      ensures found == Data && NoneMissed(file, whole) ==>
                var h := HeaderOf(file, |whole|);
                && header == h
                && (h.indexed && !h.broken && Laid(h.track) && BoxStart(file, |whole|) + 8 <= h.track.offsets[0] ==>
                      Heard(h.track, file, at, seen, status, blocks, pos, arrived, consume)
                      && (events[used - 1] == Poll(true)
                          && LongEnough(codec, h.track, file, stream.size, events[used..]) ==>
                            AllHeard(codec, h.track, file, at, seen, blocks)))
    {
      hide Sane, BoxStart, Visited, NoneMissed, HeaderOf, After, Reader.Held, Reader.Reading, Reader.AtData, Heard;
      hide LongEnough, AllHeard;
      found, used := Open(events, grants);
      status, blocks, at, seen := Running, [], pos, arrived;
      Bounds();
      if found == Data {
        if NoneMissed(file, whole) {
          NothingLost(file, whole);
        }
        if header.indexed && !header.broken {
          status, blocks := Hear(events[used - 1].connected, events[used..], codec, BoxStart(file, |whole|));
        }
      }
    }

    // The rest of that call and what follows it. Without a table of sizes or chunks the source reads
    // through null pointers, and with tables that overlap it reads what they say: not followed. Nor are
    // the blocks read from beyond their samples.
    method Hear(connected: bool, events: seq<Event>, codec: Codec, ghost p: nat)
        returns (status: Status, blocks: seq<seq<byte>>)
      requires Synced() && AtData(p) && header.indexed
      modifies this`arrived, this`pos, this`consume
      modifies this`sample, this`nextchunk, this`blockIndex, this`decoded
      modifies stream`readp, stream`writep, stream.data
      ensures Laid(header.track) && p + 8 <= header.track.offsets[0] ==>
                && Heard(header.track, file, old(pos), old(arrived), status, blocks, pos, arrived, consume)
                && (connected && LongEnough(codec, header.track, file, stream.size, events) ==>
                      AllHeard(codec, header.track, file, old(pos), old(arrived), blocks))
    {
      hide Reader.Held, Position, Laid, Extent, Block, Samples, Playable, Decodes, Rounds;
      status, blocks := Running, [];
      if !Laid(header.track) {
        return;
      }
      SizedAndStarted(header.track);
      DataIsReading(p);
      if pos + consume != header.track.offsets[0] {
        return;
      }
      Bounds();
      NoSamples(header.track, file, 0);
      NoSamples(header.track, file, 1);
      var early, excess := consume > 0, Excess();
      ExcessIs(p);
      var block;
      status, block := Decode(connected, codec);
      if block.Some? {
        if !early {
          OneMore(header.track, file, 0, blocks, block.value);
        }
        if Decodes(codec, header.track, file) {
          Decoded(codec, header.track, file, 0);
        }
        blocks := blocks + [block.value];
        assert blocks[1..] == [];
      }
      if status == Running && excess > 0 && block.Some? {
        BeyondIs(excess);
        return;
      }
      if status == Running {
        var more;
        status, more := Resume(events, codec);
        if !early || block.None? {
          Together(header.track, file, 0, blocks, more);
        } else {
          assert (blocks + more)[1..] == more;
        }
        blocks := blocks + more;
      }
    }

    lemma ExcessIs(p: nat)
      requires Synced() && AtData(p) && header.indexed && Laid(header.track) && p + 8 <= header.track.offsets[0]
      ensures Excess() == if JumpsAhead(header.track, arrived) then header.track.offsets[0] - pos else 0
    {
      hide Extent;
      SizedAndStarted(header.track);
    }

    // Where the reader is when it has read the only sample of the first chunk.
    lemma BeyondIs(excess: nat)
      requires ReadingAt(pos + consume - excess) && decoded == 1
      requires Laid(header.track) && |header.track.firsts| > 1 && header.track.firsts[1] == 1
      ensures pos + consume == header.track.offsets[1] + excess
    {
      hide Extent;
      ChunkFromIs(header.track, 0, nextchunk - 1, 1);
      ChunkFromIs(header.track, 0, 1, 1);
      NothingBefore(header.track, 1);
    }

    method Resume(events: seq<Event>, codec: Codec) returns (status: Status, blocks: seq<seq<byte>>)
      requires Synced() && Reading()
      modifies this`arrived, this`pos, this`consume, this`sample, this`nextchunk, this`blockIndex, this`decoded
      modifies stream`readp, stream`writep, stream.data
      ensures Synced() && Laid(header.track) && Samples(header.track, file, old(decoded), blocks)
      ensures status == Complete ==> old(decoded) + |blocks| == header.track.total || pos == arrived
      ensures LongEnough(codec, header.track, file, stream.size, events) ==>
                old(decoded) + |blocks| == header.track.total
    {
      hide Reader.Held, Position, Laid, Extent, Block, Samples, Playable, Decodes, Rounds;
      ReadingFacts();
      Bounds();
      assert Left() <= 2 * |file| + header.track.total;
      status, blocks := Play(events, codec);
    }
  }

  // After some rounds at least as much has been brought, read or decoded, and a delivery since the
  // last call has brought something or nothing can come before the next.
  ghost predicate Goes(atFirst: int, left: int, rounds: nat, fed: bool, ripe: bool) {
    left + rounds <= atFirst && (fed ==> left + rounds < atFirst || ripe)
  }

  lemma GoesFirst(left: int, ripe: bool)
    ensures Goes(left, left, 0, false, ripe)
  {
  }

  lemma GoesOn(atFirst: int, left: int, left': int, rounds: nat, fed: bool, ripe: bool, ripe': bool, e: Event,
               rounds': nat, fed': bool)
    requires left' <= left && rounds' == rounds + (if e.Poll? && fed then 1 else 0)
    requires fed' == if e.Feed? then e.n > 0 || fed else false
    requires e.Feed? ==> (e.n > 0 ==> left' < left || ripe') && (ripe ==> ripe')
    ensures Goes(atFirst, left, rounds, fed, ripe) && (e.Poll? && ripe ==> left' < left) ==>
              Goes(atFirst, left', rounds', fed', ripe')
  {
  }

  lemma GoesFar(atFirst: int, left: int, rounds: nat, fed: bool, ripe: bool)
    requires left >= 0
    ensures Goes(atFirst, left, rounds, fed, ripe) ==> rounds <= atFirst
  {
  }

  lemma NoRounds()
    ensures forall events: seq<Event> {:trigger events[..0]} :: Rounds(events[..0]) == 0 && !Brought(events[..0])
  {
  }

  lemma OneRound(events: seq<Event>, i: nat)
    requires i < |events|
    ensures var before, e := events[..i], events[i];
            && Rounds(events[..i + 1]) == Rounds(before) + (if e.Poll? && Brought(before) then 1 else 0)
            && Brought(events[..i + 1]) == if e.Feed? then e.n > 0 || Brought(before) else false
  {
    assert events[..i + 1][..i] == events[..i];
  }

  lemma Decoded(codec: Codec, t: Track, file: seq<byte>, k: int)
    requires Laid(t) && Decodes(codec, t, file)
    ensures 0 <= k < t.total ==> codec(Block(t, file, k)) !in {None, Some(0)}
  {
  }
}