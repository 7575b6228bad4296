/** components/squeezelite/alac.c, read_mp4_header over the FIFO: what deliveries and calls do to the ring
    pointers and to the boxes read, as a function of the schedule, and which boxes are lost. */
module BoxPolls {
  import opened BigEndian
  import opened BoxWalk
  import opened Memory
  import opened StreamFifo

  // One thing that happens while a track plays: the network delivers up to n bytes, or the decoder
  // thread runs once, with the connection still up or not.
  datatype Event = Feed(n: nat) | Poll(connected: bool)

  // Where the reader of the header is: the boxes visited, the bytes read, to skip and delivered, the
  // ring pointers, and how the reading ended if it did.
  datatype Spot = Spot(whole: seq<bool>, pos: nat, consume: nat, arrived: nat, ends: Ends, found: Found)

  function Waiting(s: Spot): nat {
    if s.arrived < s.pos then 0 else s.arrived - s.pos
  }

  // The bytes from the read pointer to the wrap, and how many of those waiting lie in front of it.
  function Room(s: Spot, size: nat): int {
    size - s.ends.readp
  }

  function Seen(s: Spot, size: nat): int {
    if Waiting(s) < Room(s, size) then Waiting(s) else Room(s, size)
  }

  predicate AtWrap(s: Spot, size: nat) {
    s.ends.writep == size
  }

  ghost predicate Proper(file: seq<byte>, size: nat, s: Spot) {
    && InRing(s.ends, size) && s.pos <= s.arrived <= |file|
    && Waiting(s) == Span(s.ends.readp, s.ends.writep, size)
    && (s.found == More ==> s.pos + s.consume == BoxStart(file, |s.whole|))
  }

  // Reading on goes on.
  ghost predicate Ready(file: seq<byte>, size: nat, s: Spot) {
    Proper(file, size, s) && s.found == More && !AtWrap(s, size)
  }

  // ---------------------------------------------------------------- one event

  // The stream thread stores what the network has, as far as one pass of it goes.
  ghost function Fed(file: seq<byte>, size: nat, s: Spot, n: nat): (t: Spot)
    requires Ready(file, size, s)
    ensures Ready(file, size, t)
  {
    var (r, w) := (s.ends.readp, s.ends.writep);
    var m := Min(n, Min(Min(size - 1 - Waiting(s), if w >= r then size - w else r - w), |file| - s.arrived));
    s.(arrived := s.arrived + m, ends := Ends(r, At(w, size, m)))
  }

  ghost function Onward(file: seq<byte>, size: nat, s: Spot, n: nat): (t: Spot)
    requires Ready(file, size, s) && n <= Waiting(s)
    ensures t.arrived == s.arrived && t.pos == s.pos + n && InRing(t.ends, size) && !AtWrap(t, size)
    ensures Waiting(t) == Span(t.ends.readp, t.ends.writep, size) && Seen(t, size) >= Seen(s, size) - n
    ensures t.whole == s.whole && t.consume == s.consume && t.found == s.found
    ensures Room(t, size) == if n < Room(s, size) then Room(s, size) - n else Room(s, size) - n + size
  {
    s.(pos := s.pos + n, ends := Ends(At(s.ends.readp, size, n), s.ends.writep))
  }

  // Over a box: some bytes now and the others later.
  ghost function Over(file: seq<byte>, size: nat, s: Spot, now: nat, later: nat, flag: bool): (t: Spot)
    requires Ready(file, size, s) && now <= Waiting(s)
  {
    Onward(file, size, s, now).(consume := later, whole := s.whole + [flag])
  }

  lemma OverReady(file: seq<byte>, size: nat, s: Spot, now: nat, later: nat, flag: bool)
    requires Ready(file, size, s) && now <= Waiting(s) && s.pos + 8 <= |file| && s.consume == 0
    requires now + later == StepOver(KindIn(HeadAt(file, s.pos)), LenOf(HeadAt(file, s.pos)))
    ensures var t := Over(file, size, s, now, later, flag);
            && Ready(file, size, t) && Seen(t, size) >= Seen(s, size) - now
            && t.pos == s.pos + now && t.whole == s.whole + [flag] && t.consume == later && t.arrived == s.arrived
  {
    hide KindIn, LenOf, StepOver;
    OneBoxOn(file, s.whole, flag);
  }

  lemma OneBoxOn(file: seq<byte>, whole: seq<bool>, b: bool)
    requires BoxStart(file, |whole|) + 8 <= |file|
    ensures var p := BoxStart(file, |whole|);
            BoxStart(file, |whole + [b]|) == p + StepOver(KindIn(HeadAt(file, p)), LenOf(HeadAt(file, p)))
  {
    hide KindIn, LenOf, StepOver;
  }

  // At the media data: on to the first chunk of the track to play, now or later.
  ghost function Entered(file: seq<byte>, size: nat, s: Spot, bytes: nat): (t: Spot)
    requires Ready(file, size, s) && 8 <= bytes <= Waiting(s)
    ensures Proper(file, size, t) && t.whole == s.whole && t.arrived == s.arrived && t.pos >= s.pos + 8
  {
    var h := Visited(file, s.whole);
    var ahead := DataStart(h, s.pos) - s.pos;
    if h.play == 0 then Onward(file, size, s, 8).(found := Failed)
    else if ahead <= bytes then Onward(file, size, s, ahead).(found := Data)
    else Onward(file, size, s, 8).(consume := ahead - 8, found := Data)
  }

  // A box that is not there to its end: the rest is skipped, or waited for with room made for it.
  ghost function CutOff(file: seq<byte>, size: nat, s: Spot, bytes: nat, kind: Kind, len: nat, grant: Grant): (t: Spot)
    requires Ready(file, size, s) && s.consume == 0 && bytes <= Waiting(s) && Bounded(grant)
  {
    if !Waits(kind) then Over(file, size, s, bytes, Max(StepOver(kind, len) - bytes, 0), bytes > len)
    else if len > size then s.(found := Failed)
    else if UndefinedAt(s.ends, size, len, 1, grant) then s.(found := Undefined)
    else s.(ends := Straightened(s.ends, size, len, 1, grant))
  }

  lemma CutOffProper(file: seq<byte>, size: nat, s: Spot, bytes: nat, grant: Grant)
    requires Ready(file, size, s) && s.consume == 0 && 8 <= bytes <= Waiting(s) && Bounded(grant)
    requires bytes < StepOver(KindIn(HeadAt(file, s.pos)), LenOf(HeadAt(file, s.pos)))
    ensures var kind, len := KindIn(HeadAt(file, s.pos)), LenOf(HeadAt(file, s.pos));
            var t := CutOff(file, size, s, bytes, kind, len, grant);
            && Proper(file, size, t) && t.arrived == s.arrived
            && t.whole == (if Waits(kind) then s.whole else s.whole + [bytes > len])
            && (Waits(kind) ==> t.pos == s.pos && t.consume == 0 && Room(t, size) <= Max(Room(s, size), len))
  {
    hide KindIn, LenOf, StepOver, Straightened, UndefinedAt, Waits;
    var kind, len := KindIn(HeadAt(file, s.pos)), LenOf(HeadAt(file, s.pos));
    if !Waits(kind) {
      OverReady(file, size, s, bytes, StepOver(kind, len) - bytes, bytes > len);
    } else if len <= size && !UndefinedAt(s.ends, size, len, 1, grant) {
      StraightenedRoom(s.ends, size, len, 1, grant);
    }
  }

  // read_mp4_header, with `bytes` left of the piece before the wrap. A box shorter than its header ends it.
  ghost function Scan(file: seq<byte>, size: nat, s: Spot, bytes: nat, grant: Grant): (t: Spot)
    requires Ready(file, size, s) && s.consume == 0 && bytes <= Seen(s, size) && Bounded(grant)
    ensures Proper(file, size, t)
    decreases bytes
  {
    if bytes < 8 then s
    else
      var kind, len := KindIn(HeadAt(file, s.pos)), LenOf(HeadAt(file, s.pos));
      if kind == Mdat then Entered(file, size, s, bytes)
      else if len < 8 then s.(found := Failed)
      else if bytes >= StepOver(kind, len) then
        OverReady(file, size, s, StepOver(kind, len), 0, bytes > len);
        Scan(file, size, Over(file, size, s, StepOver(kind, len), 0, bytes > len), bytes - StepOver(kind, len), grant)
      else
        CutOffProper(file, size, s, bytes, grant);
        CutOff(file, size, s, bytes, kind, len, grant)
  }

  // One event before the media data is met. Nothing happens any more when the header has ended, or the
  // write pointer rests on the wrap.
  ghost function Next(file: seq<byte>, size: nat, s: Spot, e: Event, grant: Grant): (t: Spot)
    requires Proper(file, size, s) && Bounded(grant)
    ensures Proper(file, size, t)
  {
    if s.found != More || AtWrap(s, size) then s
    else match e
      case Feed(n) => Fed(file, size, s, n)
      case Poll(_) =>
        if s.consume == 0 then Scan(file, size, s, Seen(s, size), grant)
        else
          var n := Min(s.consume, Waiting(s));
          Onward(file, size, s, n).(consume := s.consume - n)
  }

  ghost predicate AllBounded(grants: nat -> Grant) {
    forall t: nat :: Bounded(grants(t))
  }

  // ... and a schedule of them; grants(i) answers the allocations of event i.
  ghost function After(file: seq<byte>, size: nat, s: Spot, events: seq<Event>, grants: nat -> Grant): (t: Spot)
    requires Proper(file, size, s) && AllBounded(grants)
    ensures Proper(file, size, t)
  {
    if events == [] then s
    else
      var n := |events| - 1;
      Next(file, size, After(file, size, s, events[..n], grants), events[n], grants(n))
  }

  lemma AfterOne(file: seq<byte>, size: nat, s: Spot, events: seq<Event>, grants: nat -> Grant, i: nat)
    requires Proper(file, size, s) && AllBounded(grants) && i < |events|
    ensures After(file, size, s, events[..i + 1], grants)
         == Next(file, size, After(file, size, s, events[..i], grants), events[i], grants(i))
  {
    hide Next, Proper;
    assert events[..i + 1][..i] == events[..i];
  }

  // ---------------------------------------------------------------- what a call does

  lemma {:induction false} StartsGrow(file: seq<byte>, a: nat, b: nat)
    requires a <= b
    ensures BoxStart(file, a) <= BoxStart(file, b)
    decreases b
  {
    hide KindIn, LenOf;
    if a < b {
      StartsGrow(file, a, b - 1);
    }
  }

  ghost function KindAt(file: seq<byte>, k: nat): Kind
    requires BoxStart(file, k) + 8 <= |file|
  {
    KindIn(HeadAt(file, BoxStart(file, k)))
  }

  ghost function LenAt(file: seq<byte>, k: nat): (len: nat)
    requires BoxStart(file, k) + 8 <= |file|
  {
    LenOf(HeadAt(file, BoxStart(file, k)))
  }

  ghost function End(file: seq<byte>, k: nat): (e: nat)
    requires BoxStart(file, k) + 8 <= |file|
  {
    BoxStart(file, k) + LenAt(file, k)
  }

  // The header does not end at box k.
  ghost predicate Passable(file: seq<byte>, k: nat) {
    BoxStart(file, k) + 8 <= |file| && KindAt(file, k) != Mdat && 8 <= LenAt(file, k)
  }

  // Box k was visited by a call to which the bytes up to `seen` lay in one piece.
  ghost predicate Passed(file: seq<byte>, k: nat, flag: bool, seen: int) {
    && Passable(file, k) && BoxStart(file, k) + 8 <= seen <= |file|
    && flag == (seen > End(file, k))
    && (Waits(KindAt(file, k)) ==> seen >= End(file, k))
  }

  lemma ScanEnds(file: seq<byte>, size: nat, s: Spot, bytes: nat, grant: Grant)
    requires Ready(file, size, s) && s.consume == 0 && bytes <= Seen(s, size) && Bounded(grant)
    ensures var t := Scan(file, size, s, bytes, grant);
            && (bytes < 8 ==> t == s)
            && (8 <= bytes && !Passable(file, |s.whole|) ==>
                  t.found != More && t.whole == s.whole && t.arrived == s.arrived)
  {
    hide KindIn, LenOf;
  }

  lemma ScanEnters(file: seq<byte>, size: nat, s: Spot, bytes: nat, grant: Grant)
    requires Ready(file, size, s) && s.consume == 0 && 8 <= bytes <= Seen(s, size) && Bounded(grant)
    requires KindIn(HeadAt(file, s.pos)) == Mdat
    ensures Scan(file, size, s, bytes, grant) == Entered(file, size, s, bytes)
  {
    hide KindIn, LenOf, StepOver, Entered;
  }

  // What a call does with its first box, if that does not end the header: it goes over it and on ...
  lemma ScanOver(file: seq<byte>, size: nat, s: Spot, bytes: nat, grant: Grant)
    requires Ready(file, size, s) && s.consume == 0 && 8 <= bytes <= Seen(s, size) && Bounded(grant)
    requires Passable(file, |s.whole|) && bytes >= StepOver(KindAt(file, |s.whole|), LenAt(file, |s.whole|))
    ensures var kind, len := KindAt(file, |s.whole|), LenAt(file, |s.whole|);
            var t := Over(file, size, s, StepOver(kind, len), 0, bytes > len);
            && Ready(file, size, t) && t.consume == 0 && bytes - StepOver(kind, len) <= Seen(t, size)
            && t.pos == s.pos + StepOver(kind, len) && t.whole == s.whole + [bytes > len] && t.arrived == s.arrived
            && Scan(file, size, s, bytes, grant) == Scan(file, size, t, bytes - StepOver(kind, len), grant)
  {
    hide KindIn, LenOf, StepOver, Waits, Over, Span, CutOff;
    var kind, len := KindAt(file, |s.whole|), LenAt(file, |s.whole|);
    OverReady(file, size, s, StepOver(kind, len), 0, bytes > len);
  }

  // ... or stops at it.
  lemma ScanCuts(file: seq<byte>, size: nat, s: Spot, bytes: nat, grant: Grant)
    requires Ready(file, size, s) && s.consume == 0 && 8 <= bytes <= Seen(s, size) && Bounded(grant)
    requires Passable(file, |s.whole|) && bytes < StepOver(KindAt(file, |s.whole|), LenAt(file, |s.whole|))
    ensures var kind, len := KindAt(file, |s.whole|), LenAt(file, |s.whole|);
            var t := Scan(file, size, s, bytes, grant);
            && t == CutOff(file, size, s, bytes, kind, len, grant) && t.arrived == s.arrived
            && t.whole == (if Waits(kind) then s.whole else s.whole + [bytes > len])
            && (Waits(kind) ==> t.pos == s.pos && t.consume == 0 && Room(t, size) <= Max(Room(s, size), len))
  {
    hide KindIn, LenOf, StepOver, Straightened, UndefinedAt, Waits, CutOff;
    CutOffProper(file, size, s, bytes, grant);
  }

  lemma {:induction false} ScanPasses(file: seq<byte>, size: nat, s: Spot, bytes: nat, grant: Grant)
    requires Ready(file, size, s) && s.consume == 0 && bytes <= Seen(s, size) && Bounded(grant)
    ensures var t := Scan(file, size, s, bytes, grant);
            && s.whole <= t.whole && t.arrived == s.arrived
            && forall k :: |s.whole| <= k < |t.whole| ==> Passed(file, k, t.whole[k], s.pos + bytes)
    decreases bytes
  {
    hide KindIn, LenOf, Scan, Over, CutOff;
    ScanEnds(file, size, s, bytes, grant);
    if bytes >= 8 && Passable(file, |s.whole|) {
      var kind, len := KindAt(file, |s.whole|), LenAt(file, |s.whole|);
      if bytes < StepOver(kind, len) {
        ScanCuts(file, size, s, bytes, grant);
      } else {
        ScanOver(file, size, s, bytes, grant);
        ScanPasses(file, size, Over(file, size, s, StepOver(kind, len), 0, bytes > len), bytes - StepOver(kind, len),
                   grant);
      }
    }
  }

  // A call that has enough for box k in one piece reaches it, whatever boxes that are not the end of the
  // header lie in between.
  lemma {:induction false} ScanReaches(file: seq<byte>, size: nat, s: Spot, bytes: nat, grant: Grant, k: nat)
    requires Ready(file, size, s) && s.consume == 0 && bytes <= Seen(s, size) && Bounded(grant) && |s.whole| <= k
    requires forall b :: |s.whole| <= b <= k ==> Passable(file, b)
    requires BoxStart(file, k) + 8 <= s.pos + bytes && (Waits(KindAt(file, k)) ==> s.pos + bytes >= End(file, k))
    ensures k < |Scan(file, size, s, bytes, grant).whole|
    decreases bytes
  {
    hide KindIn, LenOf, Scan, Over, CutOff;
    var n := |s.whole|;
    StartsGrow(file, n, k);
    assert Passable(file, n);
    var step := StepOver(KindAt(file, n), LenAt(file, n));
    OneBoxOn(file, s.whole, true);
    if n < k {
      StartsGrow(file, n + 1, k);
    }
    if bytes < step {
      ScanCuts(file, size, s, bytes, grant);
    } else {
      ScanOver(file, size, s, bytes, grant);
      var t := Over(file, size, s, step, 0, bytes > LenAt(file, n));
      if n < k {
        ScanReaches(file, size, t, bytes - step, grant, k);
      } else {
        ScanPasses(file, size, t, bytes - step, grant);
      }
    }
  }

  // A call that has everything up to the media data in one piece, and a byte behind the end of every box,
  // reads every box and stops there, or at the first chunk if that is there too.
  lemma {:induction false} ScanThrough(file: seq<byte>, size: nat, s: Spot, bytes: nat, grant: Grant, m: nat)
    requires Ready(file, size, s) && s.consume == 0 && bytes <= Seen(s, size) && Bounded(grant)
    requires |s.whole| <= m && s.whole == seq(|s.whole|, i => true)
    requires forall n :: |s.whole| <= n < m ==> Passable(file, n) && End(file, n) < s.pos + bytes
    requires BoxStart(file, m) + 8 <= s.pos + bytes && KindAt(file, m) == Mdat && HeaderOf(file, m).play > 0
    ensures var t := Scan(file, size, s, bytes, grant);
            var p := BoxStart(file, m);
            var q := DataStart(HeaderOf(file, m), p);
            && t.whole == seq(m, i => true) && t.found == Data && t.arrived == s.arrived
            && t.pos == if q <= s.pos + bytes then q else p + 8
    decreases m - |s.whole|
  {
    hide KindIn, LenOf, Scan, Over, DataStart, Visited;
    var n := |s.whole|;
    StartsGrow(file, n, m);
    if n < m {
      assert Passable(file, n);
      var step := StepOver(KindAt(file, n), LenAt(file, n));
      OneBoxOn(file, s.whole, true);
      StartsGrow(file, n + 1, m);
      ScanOver(file, size, s, bytes, grant);
      assert seq(n, i => true) + [true] == seq(n + 1, i => true);
      ScanThrough(file, size, Over(file, size, s, step, 0, bytes > LenAt(file, n)), bytes - step, grant, m);
    } else {
      ScanEnters(file, size, s, bytes, grant);
    }
  }

  // ---------------------------------------------------------------- boxes lost

  // Event i of a schedule is a call that looks at the header.
  ghost predicate Looks(file: seq<byte>, size: nat, s: Spot, events: seq<Event>, grants: nat -> Grant, i: nat)
    requires Proper(file, size, s) && AllBounded(grants) && i < |events|
  {
    var t := After(file, size, s, events[..i], grants);
    events[i].Poll? && t.found == More && !AtWrap(t, size) && t.consume == 0
  }

  lemma NextGrows(file: seq<byte>, size: nat, s: Spot, e: Event, grant: Grant)
    requires Proper(file, size, s) && Bounded(grant)
    ensures var t := Next(file, size, s, e, grant);
            && s.whole <= t.whole && s.arrived <= t.arrived
            && (s.whole != t.whole ==> e.Poll? && s.found == More && !AtWrap(s, size) && s.consume == 0)
            && forall k :: |s.whole| <= k < |t.whole| ==> Passed(file, k, t.whole[k], s.pos + Seen(s, size))
  {
    hide Scan, Passed;
    if s.found == More && !AtWrap(s, size) && s.consume == 0 && e.Poll? {
      ScanPasses(file, size, s, Seen(s, size), grant);
    }
  }

  lemma {:induction false} AfterGrows(file: seq<byte>, size: nat, s: Spot, events: seq<Event>, grants: nat -> Grant,
                                      i: nat)
    requires Proper(file, size, s) && AllBounded(grants) && i <= |events|
    ensures After(file, size, s, events[..i], grants).whole <= After(file, size, s, events, grants).whole
    decreases |events|
  {
    hide Next, Proper;
    if i == |events| {
      assert events[..i] == events;
    } else {
      var n := |events| - 1;
      AfterGrows(file, size, s, events[..n], grants, i);
      assert events[..n][..i] == events[..i];
      NextGrows(file, size, After(file, size, s, events[..n], grants), events[n], grants(n));
    }
  }

  // Every box visited was passed by one call.
  lemma {:induction false} PassedBy(file: seq<byte>, size: nat, s: Spot, events: seq<Event>, grants: nat -> Grant,
                                    k: nat)
      returns (i: nat)
    requires Proper(file, size, s) && AllBounded(grants)
    requires |s.whole| <= k < |After(file, size, s, events, grants).whole|
    ensures i < |events| && Looks(file, size, s, events, grants, i)
    ensures var t := After(file, size, s, events[..i], grants);
            && |t.whole| <= k < |After(file, size, s, events[..i + 1], grants).whole|
            && Passed(file, k, After(file, size, s, events, grants).whole[k], t.pos + Seen(t, size))
    decreases |events|
  {
    hide Next, Proper, Passed;
    var n := |events| - 1;
    var t := After(file, size, s, events[..n], grants);
    NextGrows(file, size, t, events[n], grants(n));
    if k < |t.whole| {
      i := PassedBy(file, size, s, events[..n], grants, k);
      assert events[..n][..i] == events[..i] && events[..n][..i + 1] == events[..i + 1];
    } else {
      i := n;
      assert events[..n + 1] == events;
    }
  }

  // So much in one piece makes a call go over box k without reading it.
  ghost predicate CutShort(file: seq<byte>, k: nat, seen: int)
    requires BoxStart(file, k) + 8 <= |file|
  {
    if Waits(KindAt(file, k)) then seen == End(file, k) else BoxStart(file, k) + 8 <= seen <= End(file, k)
  }

  // Over any schedule, a box that is waited for is passed over unread exactly when a call that looks
  // before it was passed finds it to its last byte and no more in one piece; one that is not - alac -
  // exactly when such a call finds its header but nothing behind its end.
  lemma LostExactly(file: seq<byte>, size: nat, s: Spot, events: seq<Event>, grants: nat -> Grant, k: nat)
    requires Proper(file, size, s) && AllBounded(grants)
    requires |s.whole| <= k < |After(file, size, s, events, grants).whole|
    ensures Passable(file, k)
    ensures !After(file, size, s, events, grants).whole[k] <==>
            exists i :: 0 <= i < |events| && Lost(file, size, s, events, grants, k, i)
  {
    hide After, Looks, KindIn, LenOf, BoxStart, Proper;
    var j := PassedBy(file, size, s, events, grants, k);
    if After(file, size, s, events, grants).whole[k] {
      forall i | 0 <= i < |events|
        ensures !Lost(file, size, s, events, grants, k, i)
      {
        if Lost(file, size, s, events, grants, k, i) {
          FirstToPass(file, size, s, events, grants, k, i, j);
        }
      }
    } else {
      assert Lost(file, size, s, events, grants, k, j);
    }
  }

  // Event i looks and loses box k.
  ghost predicate Lost(file: seq<byte>, size: nat, s: Spot, events: seq<Event>, grants: nat -> Grant, k: nat, i: nat)
    requires Proper(file, size, s) && AllBounded(grants) && i < |events| && BoxStart(file, k) + 8 <= |file|
  {
    var t := After(file, size, s, events[..i], grants);
    Looks(file, size, s, events, grants, i) && |t.whole| <= k && CutShort(file, k, t.pos + Seen(t, size))
  }

  // The call that passes box k is the first that looks and finds enough for it.
  lemma FirstToPass(file: seq<byte>, size: nat, s: Spot, events: seq<Event>, grants: nat -> Grant,
                    k: nat, i: nat, j: nat)
    requires Proper(file, size, s) && AllBounded(grants) && i < |events| && j < |events|
    requires |s.whole| <= k < |After(file, size, s, events[..j + 1], grants).whole|
    requires |After(file, size, s, events[..j], grants).whole| <= k
    requires Looks(file, size, s, events, grants, i) && |After(file, size, s, events[..i], grants).whole| <= k
    requires var t := After(file, size, s, events[..i], grants);
             Passable(file, k) && BoxStart(file, k) + 8 <= t.pos + Seen(t, size)
             && (Waits(KindAt(file, k)) ==> t.pos + Seen(t, size) >= End(file, k))
    ensures j == i
  {
    hide KindIn, LenOf, BoxStart, After, Scan;
    var t := After(file, size, s, events[..i], grants);
    if i < j {
      AfterGrows(file, size, s, events[..j], grants, i + 1);
      assert events[..j][..i + 1] == events[..i + 1];
      GoodBoxes(file, size, s, events[..j + 1], grants, k);
      AfterGrows(file, size, s, events[..i], grants, 0);
      assert events[..i][..0] == [];
      NothingYet(file, size, s, grants);
      AfterOne(file, size, s, events, grants, i);
      ScanReaches(file, size, t, Seen(t, size), grants(i), k);
      assert false;
    } else if j < i {
      assert events[..i][..j + 1] == events[..j + 1];
      AfterGrows(file, size, s, events[..i], grants, j + 1);
    }
  }

  lemma NothingYet(file: seq<byte>, size: nat, s: Spot, grants: nat -> Grant)
    requires Proper(file, size, s) && AllBounded(grants)
    ensures After(file, size, s, [], grants) == s
  {
    hide Proper;
  }

  // Nothing more happens once the header has ended or the write pointer rests on the wrap.
  lemma {:induction false} Settled(file: seq<byte>, size: nat, s: Spot, events: seq<Event>, grants: nat -> Grant,
                                   i: nat)
    requires Proper(file, size, s) && AllBounded(grants) && i <= |events|
    requires var t := After(file, size, s, events[..i], grants); t.found != More || AtWrap(t, size)
    ensures After(file, size, s, events, grants) == After(file, size, s, events[..i], grants)
    decreases |events|
  {
    hide Proper, Scan;
    if i == |events| {
      assert events[..i] == events;
    } else {
      var n := |events| - 1;
      assert events[..n][..i] == events[..i];
      Settled(file, size, s, events[..n], grants, i);
    }
  }

  // The header does not end before a box that was visited.
  lemma GoodBoxes(file: seq<byte>, size: nat, s: Spot, events: seq<Event>, grants: nat -> Grant, k: nat)
    requires Proper(file, size, s) && AllBounded(grants)
    requires |s.whole| <= k < |After(file, size, s, events, grants).whole|
    ensures forall b :: |s.whole| <= b <= k ==> Passable(file, b)
  {
    hide After, Looks, KindIn, LenOf, BoxStart, Proper, Passable;
    forall b | |s.whole| <= b <= k
      ensures Passable(file, b)
    {
      var _ := PassedBy(file, size, s, events, grants, b);
    }
  }

  // So no box worth reading is missed exactly when no call loses one.
  lemma NoneMissedExactly(file: seq<byte>, size: nat, s: Spot, events: seq<Event>, grants: nat -> Grant)
    requires Proper(file, size, s) && AllBounded(grants) && s.whole == []
    ensures var whole := After(file, size, s, events, grants).whole;
            && (forall k :: 0 <= k < |whole| ==> Passable(file, k))
            && (NoneMissed(file, whole) <==>
                  forall k, i :: 0 <= k < |whole| && Passable(file, k) && Read(KindAt(file, k)) && 0 <= i < |events| ==>
                    !Lost(file, size, s, events, grants, k, i))
  {
    hide After, Looks, Lost, KindIn, LenOf, BoxStart, Proper;
    var whole := After(file, size, s, events, grants).whole;
    forall k | 0 <= k < |whole|
      ensures Passable(file, k)
      ensures !whole[k] <==> exists i :: 0 <= i < |events| && Lost(file, size, s, events, grants, k, i)
    {
      LostExactly(file, size, s, events, grants, k);
    }
  }
}
