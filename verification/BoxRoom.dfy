/** components/squeezelite/alac.c, read_mp4_header: what the bytes from the read pointer to the wrap decide.
    A box that does not fit in front of the wrap is lost or never passed, however the file arrives. */
module BoxRoom {
  import opened BoxPolls
  import opened BoxWalk
  import opened Memory
  import opened StreamFifo

  // A call looks for box k next.
  ghost predicate Pending(file: seq<byte>, size: nat, s: Spot, k: nat) {
    Ready(file, size, s) && s.consume == 0 && |s.whole| == k
  }

  lemma NextPending(file: seq<byte>, size: nat, s: Spot, k: nat, e: Event, grant: Grant)
    requires Pending(file, size, s, k) && Passable(file, k) && Bounded(grant)
    ensures var t := Next(file, size, s, e, grant);
            |t.whole| == k ==>
              && t.pos == s.pos && t.consume == 0
              && (if Room(s, size) > LenAt(file, k) then t.ends.readp == s.ends.readp
                  else Room(t, size) <= LenAt(file, k))
  {
    hide KindIn, LenOf, StepOver, Scan, Over, Straightened, UndefinedAt;
    var len := LenAt(file, k);
    if e.Poll? {
      var bytes := Seen(s, size);
      ScanEnds(file, size, s, bytes, grant);
      if bytes >= 8 {
        if bytes < StepOver(KindAt(file, k), len) {
          ScanCuts(file, size, s, bytes, grant);
          if Waits(KindAt(file, k)) && len <= size && !UndefinedAt(s.ends, size, len, 1, grant) {
            StraightenedIs(s.ends, size, len, 1, grant);
          }
        } else {
          ScanOver(file, size, s, bytes, grant);
          ScanPasses(file, size, Over(file, size, s, StepOver(KindAt(file, k), len), 0, bytes > len),
                     bytes - StepOver(KindAt(file, k), len), grant);
        }
      }
    }
  }

  // While a box is pending, the room in front of the wrap stays, or stays too small for it.
  lemma {:induction false} WhilePending(file: seq<byte>, size: nat, s: Spot, events: seq<Event>, grants: nat -> Grant,
                                        k: nat, i: nat)
    requires Pending(file, size, s, k) && Passable(file, k) && AllBounded(grants) && i <= |events|
    requires |After(file, size, s, events[..i], grants).whole| == k
    ensures var t := After(file, size, s, events[..i], grants);
            && t.pos == s.pos && t.consume == 0
            && (if Room(s, size) > LenAt(file, k) then t.ends.readp == s.ends.readp
                else Room(t, size) <= LenAt(file, k))
    decreases i
  {
    hide Next, KindIn, LenOf;
    if i == 0 {
      NothingYet(file, size, s, grants);
      assert events[..0] == [];
    } else {
      var t := After(file, size, s, events[..i - 1], grants);
      AfterOne(file, size, s, events, grants, i - 1);
      AfterGrows(file, size, s, events[..i - 1], grants, 0);
      NothingYet(file, size, s, grants);
      assert events[..i - 1][..0] == [];
      NextGrows(file, size, t, events[i - 1], grants(i - 1));
      WhilePending(file, size, s, events, grants, k, i - 1);
      NextSettled(file, size, t, events[i - 1], grants(i - 1));
      if Ready(file, size, t) {
        NextPending(file, size, t, k, events[i - 1], grants(i - 1));
      }
    }
  }

  lemma NextSettled(file: seq<byte>, size: nat, s: Spot, e: Event, grant: Grant)
    requires Proper(file, size, s) && Bounded(grant)
    ensures !Ready(file, size, s) ==> Next(file, size, s, e, grant) == s
  {
    hide Scan;
  }

  // A box that is next is read exactly when more than its length lies before the wrap, and no call that
  // looks while it is next finds delivered what makes it go over the box unread. With no more than its
  // length before the wrap it is lost under every schedule.
  lemma RoomDecides(file: seq<byte>, size: nat, s: Spot, events: seq<Event>, grants: nat -> Grant, k: nat)
    requires Pending(file, size, s, k) && AllBounded(grants)
    requires k < |After(file, size, s, events, grants).whole|
    ensures Passable(file, k)
    ensures After(file, size, s, events, grants).whole[k] <==>
              && Room(s, size) > LenAt(file, k)
              && forall i :: 0 <= i < |events| && Looks(file, size, s, events, grants, i)
                             && |After(file, size, s, events[..i], grants).whole| == k ==>
                   !CutShort(file, k, After(file, size, s, events[..i], grants).arrived)
  {
    hide After, KindIn, LenOf, Scan, Looks, BoxStart;
    LostExactly(file, size, s, events, grants, k);
    forall i | 0 <= i < |events| && Looks(file, size, s, events, grants, i)
               && |After(file, size, s, events[..i], grants).whole| <= k
      ensures |After(file, size, s, events[..i], grants).whole| == k
      ensures Room(s, size) > LenAt(file, k) ==>
                (Lost(file, size, s, events, grants, k, i) <==>
                 CutShort(file, k, After(file, size, s, events[..i], grants).arrived))
    {
      FromStart(file, size, s, events, grants, i);
      WhilePending(file, size, s, events, grants, k, i);
      LooksReady(file, size, s, events, grants, i);
    }
    var j := PassedBy(file, size, s, events, grants, k);
    FromStart(file, size, s, events, grants, j);
    WhilePending(file, size, s, events, grants, k, j);
    LooksReady(file, size, s, events, grants, j);
  }

  lemma FromStart(file: seq<byte>, size: nat, s: Spot, events: seq<Event>, grants: nat -> Grant, i: nat)
    requires Proper(file, size, s) && AllBounded(grants) && i <= |events|
    ensures s.whole <= After(file, size, s, events[..i], grants).whole
  {
    hide After, Proper;
    AfterGrows(file, size, s, events[..i], grants, 0);
    assert events[..i][..0] == [];
    NothingYet(file, size, s, grants);
  }

  lemma LooksReady(file: seq<byte>, size: nat, s: Spot, events: seq<Event>, grants: nat -> Grant, i: nat)
    requires Proper(file, size, s) && AllBounded(grants) && i < |events| && Looks(file, size, s, events, grants, i)
    ensures var t := After(file, size, s, events[..i], grants);
            Ready(file, size, t) && t.consume == 0 && t.pos == BoxStart(file, |t.whole|)
  {
    hide After, BoxStart;
  }

  // ---------------------------------------------------------------- stuck

  // A box whose header does not fit in front of the wrap, or one to be waited for that is as long as the
  // buffer, which never holds that many bytes.
  ghost predicate Stuck(file: seq<byte>, size: nat, s: Spot) {
    Room(s, size) < 8 || (Passable(file, |s.whole|) && Waits(KindAt(file, |s.whole|)) && LenAt(file, |s.whole|) == size)
  }

  lemma StuckOnce(file: seq<byte>, size: nat, s: Spot, e: Event, grant: Grant)
    requires Ready(file, size, s) && s.consume == 0 && Stuck(file, size, s) && Bounded(grant)
    ensures var t := Next(file, size, s, e, grant);
            && Ready(file, size, t) && Stuck(file, size, t)
            && t.whole == s.whole && t.pos == s.pos && t.consume == 0 && t.arrived >= s.arrived
  {
    hide KindIn, LenOf, StepOver, Scan, Over, Straightened, UndefinedAt;
    if e.Poll? {
      var bytes := Seen(s, size);
      ScanEnds(file, size, s, bytes, grant);
      if bytes >= 8 {
        assert StepOver(KindAt(file, |s.whole|), size) == size by {
          WaitsChangesNothing(NO_HEADER, KindAt(file, |s.whole|), size, []);
        }
        EnoughAt(s.ends, size, grant);
        StraightenedIs(s.ends, size, size, 1, grant);
        ScanCuts(file, size, s, bytes, grant);
      }
    }
  }

  lemma EnoughAt(p: Ends, size: nat, grant: Grant)
    ensures BranchOf(p, size, size, 1, grant) == Enough && !UndefinedAt(p, size, size, 1, grant)
  {
  }

  // The reader stays in front of it under every schedule.
  lemma {:induction false} StaysStuck(file: seq<byte>, size: nat, s: Spot, events: seq<Event>, grants: nat -> Grant)
    requires Ready(file, size, s) && s.consume == 0 && Stuck(file, size, s) && AllBounded(grants)
    ensures var t := After(file, size, s, events, grants);
            && Ready(file, size, t) && Stuck(file, size, t)
            && t.whole == s.whole && t.pos == s.pos && t.consume == 0 && t.arrived >= s.arrived
    decreases |events|
  {
    hide Next, Proper, Stuck;
    if events != [] {
      var n := |events| - 1;
      StaysStuck(file, size, s, events[..n], grants);
      StuckOnce(file, size, After(file, size, s, events[..n], grants), events[n], grants(n));
    }
  }

  // ---------------------------------------------------------------- moving on

  lemma Two(file: seq<byte>, size: nat, s: Spot, e: Event, e': Event, grants: nat -> Grant)
    requires Proper(file, size, s) && AllBounded(grants)
    ensures After(file, size, s, [e], grants) == Next(file, size, s, e, grants(0))
    ensures After(file, size, s, [e, e'], grants) == Next(file, size, Next(file, size, s, e, grants(0)), e', grants(1))
  {
    hide Next, Proper;
    NothingYet(file, size, s, grants);
    assert [e][..0] == [] && [e, e'][..1] == [e];
    assert [e, e'][1] == e';
  }

  // A delivery of n bytes leaves n in one piece, if they are in the file and there is room for them.
  lemma Brings(file: seq<byte>, size: nat, s: Spot, n: nat)
    requires Ready(file, size, s) && n <= Room(s, size) && n < size && s.pos + n <= |file|
    ensures var t := Fed(file, size, s, n);
            && Ready(file, size, t) && Seen(t, size) >= n && Room(t, size) == Room(s, size)
            && t.whole == s.whole && t.pos == s.pos && t.consume == s.consume
  {
  }

  // With room for its header, a box that is not waited for is passed by the next call that finds eight
  // bytes of it.
  lemma MovesOn(file: seq<byte>, size: nat, s: Spot, connected: bool, grants: nat -> Grant)
    requires Pending(file, size, s, |s.whole|) && AllBounded(grants)
    requires Passable(file, |s.whole|) && !Waits(KindAt(file, |s.whole|)) && Room(s, size) >= 8 && size > 8
    ensures |After(file, size, s, [Feed(8), Poll(connected)], grants).whole| > |s.whole|
  {
    hide KindIn, LenOf, After, Scan, Seen, Fed;
    Two(file, size, s, Feed(8), Poll(connected), grants);
    Brings(file, size, s, 8);
    var t := Fed(file, size, s, 8);
    ScanReaches(file, size, t, Seen(t, size), grants(1), |s.whole|);
  }

  // With room for all of it, one that is waited for is passed by the next call that finds it to its end ...
  lemma MovesOverWhole(file: seq<byte>, size: nat, s: Spot, connected: bool, grants: nat -> Grant)
    requires Pending(file, size, s, |s.whole|) && AllBounded(grants) && Passable(file, |s.whole|)
    requires LenAt(file, |s.whole|) <= Room(s, size) && LenAt(file, |s.whole|) < size && End(file, |s.whole|) <= |file|
    ensures |After(file, size, s, [Feed(LenAt(file, |s.whole|)), Poll(connected)], grants).whole| > |s.whole|
  {
    hide KindIn, LenOf, After, Scan, Seen, Fed;
    var len := LenAt(file, |s.whole|);
    Two(file, size, s, Feed(len), Poll(connected), grants);
    Brings(file, size, s, len);
    var t := Fed(file, size, s, len);
    ScanReaches(file, size, t, Seen(t, size), grants(1), |s.whole|);
  }

  // ... and with less, a call that finds its header makes room, except when it has no memory for that,
  // fails to, or leaves the write pointer on the wrap. Then the box is passed in the same way, unread.
  lemma MovesRoomMade(file: seq<byte>, size: nat, s: Spot, connected: bool, grant: Grant, grants: nat -> Grant)
    requires Pending(file, size, s, |s.whole|) && AllBounded(grants) && Bounded(grant) && Passable(file, |s.whole|)
    requires Waits(KindAt(file, |s.whole|)) && Room(s, size) < LenAt(file, |s.whole|) < size && Seen(s, size) >= 8
    requires End(file, |s.whole|) <= |file|
    ensures var k, len := |s.whole|, LenAt(file, |s.whole|);
            var branch := BranchOf(s.ends, size, len, 1, grant);
            var t := Next(file, size, s, Poll(connected), grant);
            && t.found == (if UndefinedAt(s.ends, size, len, 1, grant) then Undefined else More) && t.whole == s.whole
            && (t.found == More ==>
                  && (AtWrap(t, size) && branch != Halve <==>
                        branch == Direct && s.ends.writep == ShiftOf(s.ends, size, len))
                  && (Room(t, size) == len <==> branch != Halve)
                  && (!AtWrap(t, size) ==>
                        var u := After(file, size, t, [Feed(len), Poll(connected)], grants);
                        && (|u.whole| > k <==> branch != Halve)
                        && (|u.whole| > k ==> !u.whole[k])))
  {
    hide KindIn, LenOf, After, Scan, StepOver, Seen, Fed, Straightened, UndefinedAt;
    var k, len := |s.whole|, LenAt(file, |s.whole|);
    WaitsChangesNothing(NO_HEADER, KindAt(file, k), len, []);
    ShortSeen(s, size, len);
    ScanCuts(file, size, s, Seen(s, size), grant);
    var t := Next(file, size, s, Poll(connected), grant);
    if t.found == More {
      StraightenedIs(s.ends, size, len, 1, grant);
      StraightenedRoom(s.ends, size, len, 1, grant);
      if !AtWrap(t, size) {
        if Room(t, size) == len {
          MovesOverWhole(file, size, t, connected, grants);
        } else {
          NotYet(file, size, t, connected, grants);
        }
        StaysOrLost(file, size, t, [Feed(len), Poll(connected)], grants, k);
      }
    }
  }

  lemma NotYet(file: seq<byte>, size: nat, s: Spot, connected: bool, grants: nat -> Grant)
    requires Pending(file, size, s, |s.whole|) && AllBounded(grants) && Passable(file, |s.whole|)
    requires Waits(KindAt(file, |s.whole|)) && Room(s, size) < LenAt(file, |s.whole|)
    ensures After(file, size, s, [Feed(LenAt(file, |s.whole|)), Poll(connected)], grants).whole == s.whole
  {
    hide KindIn, LenOf, After, Scan, StepOver;
    var len := LenAt(file, |s.whole|);
    WaitsChangesNothing(NO_HEADER, KindAt(file, |s.whole|), len, []);
    Two(file, size, s, Feed(len), Poll(connected), grants);
    var t := Fed(file, size, s, len);
    ShortSeen(t, size, len);
    ScanEnds(file, size, t, Seen(t, size), grants(1));
    if Seen(t, size) >= 8 {
      ScanCuts(file, size, t, Seen(t, size), grants(1));
    }
  }

  lemma ShortSeen(s: Spot, size: nat, len: int)
    requires Room(s, size) < len
    ensures Seen(s, size) < len
  {
  }

  // A box with no more than its length before the wrap: not passed with less, and never read.
  lemma StaysOrLost(file: seq<byte>, size: nat, s: Spot, events: seq<Event>, grants: nat -> Grant, k: nat)
    requires Pending(file, size, s, k) && AllBounded(grants) && Passable(file, k) && Room(s, size) <= LenAt(file, k)
    ensures var u := After(file, size, s, events, grants);
            |u.whole| > k ==> !u.whole[k]
  {
    hide After, KindIn, LenOf;
    if |After(file, size, s, events, grants).whole| > k {
      RoomDecides(file, size, s, events, grants, k);
    }
  }

  // ---------------------------------------------------------------- before anything wraps

  // The bytes held do not wrap, and moved down if at all.
  ghost predicate Straight(size: nat, s: Spot) {
    s.ends.readp <= s.ends.writep < size && s.ends.readp <= s.pos
  }

  lemma {:induction false} ScanStraight(file: seq<byte>, size: nat, s: Spot, bytes: nat, grant: Grant)
    requires Ready(file, size, s) && s.consume == 0 && bytes <= Seen(s, size) && Bounded(grant)
    requires Straight(size, s) && s.arrived < size
    ensures Straight(size, Scan(file, size, s, bytes, grant))
    decreases bytes
  {
    hide KindIn, LenOf, StepOver, Waits, Visited, Straightened, UndefinedAt;
    if bytes >= 8 {
      var kind, len := KindIn(HeadAt(file, s.pos)), LenOf(HeadAt(file, s.pos));
      if kind != Mdat && len >= 8 {
        if bytes >= StepOver(kind, len) {
          OverReady(file, size, s, StepOver(kind, len), 0, bytes > len);
          ScanStraight(file, size, Over(file, size, s, StepOver(kind, len), 0, bytes > len),
                       bytes - StepOver(kind, len), grant);
        } else if Waits(kind) && len <= size && !UndefinedAt(s.ends, size, len, 1, grant) {
          StraightenedIs(s.ends, size, len, 1, grant);
        }
      }
    }
  }

  // From a new reader on, while less than the buffer's size was delivered, all that was delivered and not
  // read lies in one piece: what a call finds is what was delivered.
  lemma {:induction false} FindsDelivered(file: seq<byte>, size: nat, s: Spot, events: seq<Event>, grants: nat -> Grant)
    requires Proper(file, size, s) && AllBounded(grants) && Straight(size, s)
    requires After(file, size, s, events, grants).arrived < size
    ensures var t := After(file, size, s, events, grants);
            Straight(size, t) && t.pos + Seen(t, size) == t.arrived
    decreases |events|
  {
    hide KindIn, LenOf, Scan, Next, Proper;
    if events != [] {
      var n := |events| - 1;
      var t := After(file, size, s, events[..n], grants);
      NextGrows(file, size, t, events[n], grants(n));
      FindsDelivered(file, size, s, events[..n], grants);
      NextStraight(file, size, t, events[n], grants(n));
    }
    SeesAll(file, size, After(file, size, s, events, grants));
  }

  lemma SeesAll(file: seq<byte>, size: nat, s: Spot)
    requires Proper(file, size, s) && Straight(size, s)
    ensures s.pos + Seen(s, size) == s.arrived
  {
  }

  lemma NextStraight(file: seq<byte>, size: nat, s: Spot, e: Event, grant: Grant)
    requires Proper(file, size, s) && Bounded(grant) && Straight(size, s)
    requires Next(file, size, s, e, grant).arrived < size
    ensures Straight(size, Next(file, size, s, e, grant))
  {
    hide KindIn, LenOf, Scan;
    if Ready(file, size, s) && e.Poll? && s.consume == 0 {
      NextGrows(file, size, s, e, grant);
      ScanStraight(file, size, s, Seen(s, size), grant);
    }
  }
}
