/** components/raop/rtp.c: the AirPlay jitter buffer. Packets land in a ring of 375 slots by
    sequence number; the push loop plays, silences or discards the numbers in order. */
module JitterBuffer {
  import opened JitterHistory
  import opened Memory
  import opened SeqNumbers
  import opened Wrappers

  // A reading of the 32-bit millisecond clock.
  type Millis = x: int | 0 <= x < U32_MOD

  type Seqno = x: int | 0 <= x < SEQ_MOD

  // How far from the read end packets are taken to land.
  const HALF: int := 16384

  const MIN_LATENCY: int := 11025
  const MAX_LATENCY: int := 105840 // (120 * 44100 * 2) / 100

  // The latency a sync packet asks for, as an int, with the 11025 frames some senders leave out.
  function Wanted(rtpNow: int, rtpNowLatency: int, flags: int): int {
    var d := U32(rtpNow - rtpNowLatency);
    (if d < U32_MOD / 2 then d else d - U32_MOD) + (if flags == 7 || flags == 4 then 11025 else 0)
  }

  function Clamped(latency: int): (c: nat)
    ensures MIN_LATENCY <= c <= MAX_LATENCY
    ensures MIN_LATENCY <= latency <= MAX_LATENCY ==> c == latency
  {
    Min(Max(latency, MIN_LATENCY), MAX_LATENCY)
  }

  // hold: how early a missing frame is given up.
  function HoldOf(latency: nat): (h: int) {
    Max(latency * 1000 / (8 * 44100), 100)
  }

  // The longest latency holds 300 packets of the usual 352 samples, more than the ring can tell apart
  // in every position.
  lemma LatencyBeyondWindow()
    ensures MAX_LATENCY / 352 == 300 && !forall first: int :: OneSlotEach(first, MAX_LATENCY / 352)
  {
    SafeWindowExact(300);
  }

  // ---------------------------------------------------------------- gaps

  // The first number a gap before packet n gets timestamps for: all of the gap, or the last ones that
  // the latency covers.
  function GapStart(write: int, n: int, latency: nat, frameSize: nat): (from: int)
    requires 0 < frameSize
  {
    if latency != 0 && SeqOrder(latency / frameSize, n - write - 1) then n - S16(latency / frameSize - 1)
    else write + 1
  }

  lemma GapStartIs(write: int, n: int, latency: nat, frameSize: nat)
    requires 0 < frameSize && 1 <= n - write - 1 <= HALF && 0 < latency
    ensures write < GapStart(write, n, latency, frameSize) <= n + 32768
    ensures latency / frameSize < 32768 ==>
              GapStart(write, n, latency, frameSize)
              == if n - write - 1 > latency / frameSize then n - latency / frameSize + 1 else write + 1
  {
    var cap, m := latency / frameSize, n - write - 1;
    hide U16, S16;
    if S16(m - cap) > 0 {
      CapArithmetic(m, cap);
    }
    if cap < 32768 {
      S16Small(m - cap, m - cap);
      S16Small(cap - 1, cap - 1);
    }
  }

  lemma CapArithmetic(m: int, cap: nat)
    requires 1 <= m <= HALF && S16(m - cap) > 0
    ensures S16(cap - 1) < m
  {
  }

  // The 16-bit numbers of buffer_put_packet stand for these.
  lemma GapStartWraps(write: int, n: int, latency: nat, frameSize: nat)
    requires 0 < frameSize
    ensures var cap, gap := latency / frameSize, U16(n) - U16(write) - 1;
            && (SeqOrder(cap, gap) <==> SeqOrder(cap, n - write - 1))
            && U16(GapStart(write, n, latency, frameSize))
               == U16(if latency != 0 && SeqOrder(cap, gap) then U16(U16(n) - cap) + 1 else U16(write) + 1)
  {
    var cap := latency / frameSize;
    hide U16, S16;
    SameGap(write, n, cap);
    U16Sum(write, 1);
    CutStart(n, cap);
  }

  lemma SameGap(write: int, n: int, cap: int)
    ensures S16(U16(n) - U16(write) - 1 - cap) == S16(n - write - 1 - cap)
  {
    hide U16, S16;
    SameDifference(write, n);
    U16Sum(U16(n) - U16(write), -1 - cap);
    U16Sum(n - write, -1 - cap);
    S16Same(U16(n) - U16(write) - 1 - cap, n - write - 1 - cap);
  }

  lemma CutStart(n: int, cap: int)
    ensures U16(n - S16(cap - 1)) == U16(U16(U16(n) - cap) + 1)
  {
    hide U16, S16;
    U16Sum(n, -cap);
    U16Sum(n - cap, 1);
    U16Sum(U16(n) - cap, 1);
    assert U16(U16(n) - cap) == U16(n - cap);
    MinusSame(n, S16(cap - 1), cap - 1);
  }

  lemma MinusSame(n: int, x: int, y: int)
    requires U16(x) == U16(y)
    ensures U16(n - x) == U16(n - y)
  {
    U16Sum(x, n);
    U16Sum(y, n);
  }

  lemma S16Same(x: int, y: int)
    requires U16(x) == U16(y)
    ensures S16(x) == S16(y)
  {
  }

  // ---------------------------------------------------------------- the numbers of packets

  // The number of a packet: the one nearest the read end among those it may mean.
  function NumberOf(read: int, seqno: int): int {
    read + S16(seqno - U16(read))
  }

  lemma NumberIs(read: int, seqno: int)
    requires 0 <= seqno < SEQ_MOD
    ensures U16(NumberOf(read, seqno)) == seqno
  {
    var x := seqno - U16(read);
    U16Id(seqno);
    hide U16, S16;
    U16Sum(S16(x), read);
    U16Sum(x, read);
    U16Sum(read, seqno + read);
  }

  lemma U16Id(x: int)
    requires 0 <= x < SEQ_MOD
    ensures U16(x) == x
  {
  }

  // The tests of buffer_put_packet place a packet against the window.
  lemma NumberFacts(seqno: int, read: int, write: int, n: int)
    requires seqno == U16(n) && read - 1 <= write <= read + HALF && -HALF <= n - read <= HALF
    ensures seqno == U16(U16(write) + 1) <==> n == write + 1
    ensures SeqOrder(U16(write), seqno) <==> n > write
    ensures SeqOrder(U16(read), seqno + 1) <==> n >= read
  {
    hide U16, S16;
    U16Sum(write, 1);
    U16Near(n, write + 1);
    OrderIsVirtual(write, n);
    U16Sum(n, 1 - U16(read));
    U16Sum(read, n + 1);
    S16Small(seqno + 1 - U16(read), n + 1 - read);
  }

  lemma OrderAt(read: int, write: int, i: int)
    requires -32768 <= write - (read + i) < 32768
    ensures SeqOrder(U16(U16(read) + i), U16(write)) <==> read + i < write
  {
    U16Sum(read, i);
    OrderIsVirtual(read + i, write);
  }

  lemma SlotOfU16(v: int)
    ensures Slot(U16(v)) == Slot(v)
  {
  }

  lemma NextU16(v: int)
    ensures U16(U16(v) + 1) == U16(v + 1)
  {
  }

  // ---------------------------------------------------------------- what one event does

  datatype Event =
    | Packet(seqno: Seqno, rtptime: int, payload: seq<byte>, now: int, clock: nat -> Millis)
    | FlushAt(seqno: Seqno, rtptime: int, now: int)
    | RecordAt(seqno: Seqno, rtptime: int, now: int)
    | Sync(rtpNow: int, rtpNowLatency: int, flags: int, localTime: int, remoteGap: int)
    | Timing(roundtrip: int)

  datatype Record = Record(time: int, seqno: int, rtptime: int)

  // What a caller can see, the window in unbounded numbers, and the sessions so far.
  datatype State = State(playing: bool, flush: int, rtpSync: bool, ntpSync: bool, latency: nat, syncRtp: int,
                         syncTime: int, record: Record, read: int, write: int, sessions: seq<Session>)

  // Playing starts once both clocks are known and the flush is passed, at the packet at hand.
  predicate MayStart(v: State, seqno: int) {
    v.rtpSync && v.ntpSync && (v.flush == -1 || SeqOrder(v.flush, seqno))
  }

  function Started(v: State, seqno: int): State {
    v.(playing := true, flush := -1, read := seqno, write := seqno - 1,
       sessions := v.sessions + [Session(v.flush, seqno, {}, map[], true, [])])
  }

  // The push loop: the disposals it adds, with the clock it read and the time reference it used.
  ghost predicate Pushed(v: State, before: seq<Session>, after: seq<Session>, clock: nat -> Millis) {
    && Continues(before, after)
    && forall t: nat :: t < |Last(after).disposals| - |Last(before).disposals| ==>
         Made(v, Last(after).disposals[|Last(before).disposals| + t].at, clock(t))
  }

  ghost predicate Made(v: State, at: Moment, now: int) {
    at.now == now && at.syncRtp == v.syncRtp && at.syncTime == v.syncTime && at.hold == HoldOf(v.latency)
  }

  // The session with packet n and the gap in front of it.
  ghost function Taken(v: State, n: int, rtptime: int, payload: seq<byte>, frameSize: nat): Session
    requires 0 < frameSize && v.sessions != []
  {
    Took(Last(v.sessions), Arrival(n, rtptime, payload, n - v.read),
         if n > v.write + 1 then GapStart(v.write, n, v.latency, frameSize) else Max(v.write + 1, n))
  }

  // A packet behind the read end changes nothing. Any other is received, and the push loop disposes of
  // numbers from the read end on until the write end or a number that is waited for.
  ghost predicate ReceiveStep(u: State, n: int, rtptime: int, payload: seq<byte>, clock: nat -> Millis,
                              frameSize: nat, v: State)
    requires 0 < frameSize
  {
    && u.sessions != []
    && if n < u.read then v == u
       else
         var taken := ReplaceLast(u.sessions, Taken(u, n, rtptime, payload, frameSize));
         && v == u.(read := v.read, write := Max(u.write, n), sessions := v.sessions)
         && Pushed(u, taken, v.sessions, clock)
         && u.read <= v.read <= v.write + 1
         && v.read == Last(v.sessions).start + |Last(v.sessions).disposals|
         && PushStopped(u, Last(v.sessions), Turns(taken, v.sessions), v.read, v.write, clock, frameSize)
  }

  // How many numbers were disposed of.
  ghost function Turns(before: seq<Session>, after: seq<Session>): int
    requires before != [] && after != []
  {
    |Last(after).disposals| - |Last(before).disposals|
  }

  // The push loop ends after at least one turn with no number in front of the last one, or at a number
  // without a packet that is not due yet by more than the time it is held for, at the last clock reading.
  ghost predicate PushStopped(v: State, s: Session, turns: int, read: int, write: int, clock: nat -> Millis,
                              frameSize: nat)
  {
    || (turns >= 1 && read >= write)
    || (turns >= 0 && exists at :: Awaited(v, s, read, at, clock(turns), frameSize))
  }

  // What was seen of it; inside the safe window no packet has come for it, and its timestamp is the one
  // interpolated for the gap it is in, if it is in one.
  ghost predicate Awaited(v: State, s: Session, j: int, at: Moment, now: int, frameSize: nat) {
    && Made(v, at, now) && at.safe == s.safe && at.now <= Due(at) && Due(at) - at.now > at.hold
    && (s.safe ==>
          && (forall a :: a in s.received ==> a.number != j)
          && (j in s.gaps ==> at.rtptime == GapStamp(s.gaps[j], j, frameSize)))
  }

  ghost predicate PacketStep(v: State, seqno: int, rtptime: int, payload: seq<byte>, clock: nat -> Millis,
                             frameSize: nat, v': State)
    requires 0 < frameSize
  {
    if v.playing then ReceiveStep(v, NumberOf(v.read, seqno), rtptime, payload, clock, frameSize, v')
    else if MayStart(v, seqno) then ReceiveStep(Started(v, seqno), seqno, rtptime, payload, clock, frameSize, v')
    else v' == v
  }

  // A flush is ignored right after a RECORD and when it repeats one.
  predicate FlushCounts(r: Record, seqno: int, rtptime: int, now: int) {
    now >= U32(r.time + 250) && (r.seqno != seqno || r.rtptime != rtptime)
  }

  ghost predicate Step(v: State, e: Event, frameSize: nat, v': State)
    requires 0 < frameSize
  {
    match e
    case Packet(seqno, rtptime, payload, _, clock) => PacketStep(v, seqno, rtptime, payload, clock, frameSize, v')
    case FlushAt(seqno, rtptime, now) =>
      v' == if FlushCounts(v.record, seqno, rtptime, now) then v.(playing := false, flush := seqno) else v
    case RecordAt(seqno, rtptime, now) => v' == v.(record := Record(now, seqno, rtptime))
    case Sync(rtpNow, rtpNowLatency, flags, localTime, remoteGap) =>
      v' == if remoteGap > 10000 then v
            else
              var latency := Clamped(Wanted(rtpNow, rtpNowLatency, flags));
              v.(rtpSync := true, latency := latency, syncRtp := U32(rtpNow - latency),
                 syncTime := U32(localTime + remoteGap))
    case Timing(roundtrip) => v' == if roundtrip <= 100 then v.(ntpSync := true) else v
  }

  // ---------------------------------------------------------------- the context

  class RtpContext {
    const ring: array<Frame>
    const decode: Decoder
    const frameSize: nat
    var abRead: int
    var abWrite: int
    var flushSeqno: int
    var playing: bool
    var rtpSync: bool
    var ntpSync: bool
    var latency: nat
    var syncTime: int
    var syncRtp: int
    var record: Record
    var resentReq: int
    // The window in virtual numbers, the packets its slots hold, and the sessions so far.
    ghost var read: int
    ghost var write: int
    ghost var owner: map<int, Arrival>
    ghost var sessions: seq<Session>

    ghost function View(): State
      reads this
    {
      State(playing, flushSeqno, rtpSync, ntpSync, latency, syncRtp, syncTime, record, read, write, sessions)
    }

    // Playing or not, the history is in order.
    ghost predicate Sound()
      reads this, ring
    {
      && ring.Length == FRAMES && 0 < frameSize
      && -1 <= flushSeqno < SEQ_MOD
      && (rtpSync ==> MIN_LATENCY <= latency <= MAX_LATENCY)
      && AllOk(sessions, decode, frameSize)
      && (!playing ==> forall i :: 0 <= i < FRAMES ==> !ring[i].ready)
      && (playing ==> Ordered())
    }

    // While playing, wherever in half the range packets land: the ends of the window are in order, and
    // every ready slot holds the decode of a packet of this session.
    ghost predicate Ordered()
      requires ring.Length == FRAMES
      reads this, ring
    {
      && rtpSync && ntpSync && flushSeqno == -1
      && abRead == U16(read) && abWrite == U16(write) && read - 1 <= write <= read + HALF
      && Kept(sessions, ring[..], owner, read, write, decode, frameSize)
    }

    // ... and inside the safe window each slot belongs to one number.
    ghost predicate Valid()
      reads this, ring
    {
      Sound() && (playing ==> Told(sessions, ring[..], owner, read, write, frameSize))
    }

    // The level the source logs, W - R as a 16-bit difference, is the true one.
    lemma Level()
      requires Sound() && playing
      ensures S16(abWrite - abRead) == write - read
      ensures -1 <= S16(abWrite - abRead) <= HALF
    {
      OrderIsVirtual(read, write);
    }

    // rtp_init
    constructor (decode: Decoder, frameSize: nat, latency: nat)
      requires 0 < frameSize
      ensures Valid() && fresh(ring) && !playing && sessions == []
      ensures this.decode == decode && this.frameSize == frameSize && flushSeqno == -1
    {
      ring := new Frame[FRAMES](_ => Frame(false, 0, 0, []));
      this.decode, this.frameSize, this.latency := decode, frameSize, latency;
      abRead, abWrite, flushSeqno, playing := 0, 0, -1, false;
      rtpSync, ntpSync, syncTime, syncRtp := false, false, 0, 0;
      record, resentReq := Record(0, 0, 0), 0;
      read, write, owner, sessions := 0, -1, map[], [];
    }

    // What the push loop records of the number at the read end.
    ghost function MomentAt(now: int): Moment
      requires ring.Length == FRAMES && sessions != []
      reads this, ring
    {
      Moment(now, ring[Slot(read)].rtptime, syncRtp, syncTime, HoldOf(latency), Last(sessions).safe)
    }

    // One turn of the push loop: the frame at the read end is discarded when late, played or
    // silenced when due, played early when ready, and waited for otherwise.
    method PushOne(now: int) returns (advanced: bool)
      requires Valid() && playing && read <= write
      modifies this`abRead, this`read, this`owner, this`sessions, ring
      ensures Valid() && read == if advanced then old(read) + 1 else old(read)
      ensures var at := old(MomentAt(now));
              var held := old(Holder(owner, Slot(read)));
              var fate := if now > Due(at) then Some(Discarded(held))
                          else if held.Some? then Some(Played(held.value, decode(held.value.payload)))
                          else if Due(at) - now <= at.hold then Some(Silenced)
                          else None;
              && advanced == fate.Some?
              && sessions == if fate.None? then old(sessions)
                             else ReplaceLast(old(sessions),
                                    Disposed(Last(old(sessions)), Disposal(old(read), at, fate.value)))
      ensures !advanced ==> Slot(read) !in owner && ring[..] == old(ring[..]) && owner == old(owner)
    {
      hide SafeSlots, Current, SessionOk, AllOk, U16, Slot, S16, SeqOrder, PlayTime;
      var k := Slot(abRead);
      SlotOfU16(read);
      var frame := ring[k];
      var playtime := PlayTime(frame.rtptime, syncRtp, syncTime);
      ghost var at := MomentAt(now);
      ghost var held := Holder(owner, k);
      assert frame.ready <==> k in owner;
      ghost var d: Disposal;
      if now > playtime {
        d := Disposal(read, at, Discarded(held));
      } else if playtime - now <= Hold() {
        if frame.ready {
          d := Disposal(read, at, Played(owner[k], frame.pcm));
        } else {
          d := Disposal(read, at, Silenced);
        }
      } else if frame.ready {
        d := Disposal(read, at, Played(owner[k], frame.pcm));
      } else {
        return false;
      }
      Dispose(d, k);
      advanced := true;
    }

    function Hold(): (h: int)
      reads this
    {
      HoldOf(latency)
    }

    // The end of a turn.
    method Dispose(ghost d: Disposal, k: int)
      requires Valid() && playing && read <= write && k == Slot(read)
      requires Fits(Last(sessions), d, ring[k], Holder(owner, k), read)
      modifies this`abRead, this`read, this`owner, this`sessions, ring
      ensures Valid() && read == old(read) + 1
      ensures sessions == ReplaceLast(old(sessions), Disposed(Last(old(sessions)), d))
    {
      hide Slots, Told, Current, AllOk, U16, Slot, Fits;
      ghost var s := Last(sessions);
      DisposeKept(sessions, ring[..], owner, read, write, decode, frameSize, d);
      ghost var before := ring[..];
      ring[k] := ring[k].(ready := false);
      assert ring[..] == before[k := before[k].(ready := false)];
      sessions := ReplaceLast(sessions, Disposed(s, d));
      owner := owner - {k};
      NextU16(read);
      abRead := U16(abRead + 1);
      read := read + 1;
    }

    // rtp_request_resend, but for the datagram it sends.
    method RequestResend(first: int, last: int) returns (sent: bool)
      modifies this`resentReq
      ensures sent == ResendAccepted(U16(first), U16(last))
      ensures resentReq == if sent then U32(old(resentReq) + U16(last - first) + 1) else old(resentReq)
    {
      sent := ResendAccepted(U16(first), U16(last));
      if sent {
        resentReq := U32(resentReq + U16(last - first) + 1);
      }
    }

    // Missing numbers are asked for again, every sixteenth one, 200 ms apart.
    method ResendMissing(now: int)
      requires Valid() && playing
      modifies this`resentReq, ring
      ensures Valid() && Same(old(ring[..]), ring[..])
    {
      hide Current, SessionOk, AllOk, Slot, S16, SeqOrder, Slots, SafeSlots;
      var i := 0;
      ghost var before := ring[..];
      OrderAt(read, write, 0);
      while SeqOrder(U16(abRead + i), abWrite)
        invariant 0 <= i && i <= Max(write - read, 0) + 15
        invariant Same(before, ring[..])
        invariant SeqOrder(U16(abRead + i), abWrite) <==> read + i < write
        decreases write - read - i
      {
        var k := Slot(abRead + i);
        if !ring[k].ready && U32(now - ring[k].lastResend) > 200 {
          var _ := RequestResend(abRead + i, abRead + i);
          ring[k] := ring[k].(lastResend := now);
        }
        i := i + 16;
        OrderAt(read, write, i);
      }
      SameKeeps(Last(sessions), before, ring[..], owner, read, write, decode, frameSize);
    }

    // buffer_push_packet: push as many frames as possible. clock(k) is the time read in turn k.
    method PushPacket(clock: nat -> Millis)
      requires Valid() && (playing ==> read <= write)
      modifies this`abRead, this`read, this`owner, this`sessions, this`resentReq, ring
      ensures Valid()
      ensures !playing ==> View() == old(View())
      ensures playing ==>
                && old(read) <= read <= write + 1
                && old(sessions) != []
                && Pushed(old(View()), old(sessions), sessions, clock)
                && PushStopped(old(View()), Last(sessions), Turns(old(sessions), sessions), read, write, clock,
                                frameSize)
    {
      hide Slots, SafeSlots, Told, Current, SessionOk, AllOk, U16, Slot, S16, SeqOrder, Due, Pushed, Continues;
      if !playing || !rtpSync || !ntpSync {
        return;
      }
      PushedNone(View(), sessions, clock);
      var turn: nat := 0;
      var go := true;
      var now: Millis := 0;
      while go
        invariant Valid() && playing && old(read) <= read
        invariant go ==> read <= write && read == old(read) + turn
        invariant !go ==> read <= write + 1 && PushStopped(old(View()), Last(sessions), Turns(old(sessions), sessions),
                                                           read, write, clock, frameSize)
        invariant go ==> turn == |Last(sessions).disposals| - |Last(old(sessions)).disposals|
        invariant Pushed(old(View()), old(sessions), sessions, clock)
        decreases write - read, go
      {
        now := clock(turn);
        ghost var mid, at := sessions, MomentAt(now);
        var advanced := PushOne(now);
        turn := turn + 1;
        OrderAt(read, write, 0);
        go := advanced && SeqOrder(U16(abRead), abWrite);
        if advanced {
          Stops(old(View()), Last(sessions), Turns(old(sessions), sessions), read, write, clock, frameSize);
          PushedMore(old(View()), old(sessions), mid, Last(sessions).disposals[|Last(mid).disposals|], clock);
        } else {
          StillAwaited(old(View()), sessions, ring[..], owner, read, write, decode, frameSize, at, turn - 1, clock);
        }
      }
      ResendMissing(now);
    }

    // The gap loop of buffer_put_packet, over the numbers from..n: a missing number gets the
    // timestamp it would have and counts as just asked for.
    method FillGap(first: int, seqno: int, rtptime: int, now: int, ghost from: int, ghost n: int)
      requires ring.Length == FRAMES
      requires first == U16(from) && seqno == U16(n) && -32768 <= n - from <= HALF
      modifies ring
      ensures Retimed(old(ring[..]), ring[..], from, n)
      ensures OneSlotEach(from, n - from) ==>
                forall j :: from <= j < n ==> ring[Slot(j)].rtptime == GapTime(rtptime, seqno, U16(j), frameSize)
                                              && ring[Slot(j)].lastResend == now
    {
      hide Slot, U16, S16, SeqOrder, GapTime;
      var i := first;
      ghost var at := from;
      OrderIsVirtual(at, n);
      while SeqOrder(i, seqno)
        invariant i == U16(at) && from <= at && (at <= n || at == from)
        invariant SeqOrder(i, seqno) <==> at < n
        invariant Retimed(old(ring[..]), ring[..], from, at)
        invariant OneSlotEach(from, n - from) ==>
                    forall j :: from <= j < at ==> ring[Slot(j)].rtptime == GapTime(rtptime, seqno, U16(j), frameSize)
                                                   && ring[Slot(j)].lastResend == now
        decreases n - at
      {
        var k := Slot(i);
        SlotOfU16(at);
        assert OneSlotEach(from, n - from) ==> forall j :: from <= j < at ==> Slot(j) != k;
        ring[k] := ring[k].(rtptime := GapTime(rtptime, seqno, i, frameSize), lastResend := now);
        NextU16(at);
        at := at + 1;
        i := U16(i + 1);
        OrderIsVirtual(at, n);
      }
    }

    // Playback (re)starts at the packet that ends the wait for the sender.
    method Start(seqno: int)
      requires Valid() && !playing && MayStart(View(), seqno) && 0 <= seqno < SEQ_MOD
      modifies this`abRead, this`abWrite, this`flushSeqno, this`playing,
               this`read, this`write, this`owner, this`sessions, this`resentReq
      ensures Valid() && View() == Started(old(View()), seqno)
    {
      hide Slots, Told, Current, SeqOrder, AllOk, U16, S16, Slot;
      ghost var s := Session(flushSeqno, seqno, {}, map[], true, []);
      U16Id(seqno);
      StartKept(sessions, ring[..], decode, frameSize, flushSeqno, seqno);
      abWrite := U16(seqno - 1);
      abRead := seqno;
      flushSeqno := -1;
      playing := true;
      resentReq := 0;
      read, write, owner, sessions := seqno, seqno - 1, map[], sessions + [s];
    }

    // A packet decoded into the slot of its number n; newWrite is the write end after it. In front of a
    // newer packet the numbers from `from` on were just given their timestamps.
    method Accept(seqno: int, rtptime: int, payload: seq<byte>, newWrite: int, ghost n: int, ghost from: int)
      requires Sound() && playing && seqno == U16(n)
      requires read <= n <= read + HALF && newWrite == U16(Max(write, n)) && write < from
      requires Last(sessions).safe && OneSlotEach(read, n - read + 1) ==>
                 && SafeSlots(Last(sessions), ring[..], owner, read, write, frameSize)
                 && forall j :: from <= j < n ==>
                      ring[..][Slot(j)].rtptime == GapStamp(Arrival(n, rtptime, payload, n - read), j, frameSize)
      modifies this`abWrite, this`write, this`owner, this`sessions, ring
      ensures Valid() && write == Max(old(write), n) && Slot(n) in owner
      ensures sessions == ReplaceLast(old(sessions),
                            Took(Last(old(sessions)), Arrival(n, rtptime, payload, n - read), from))
    {
      hide Slots, Told, Current, AllOk, U16, Slot, GapStamp, Took, SafeSlots;
      ghost var a := Arrival(n, rtptime, payload, n - read);
      ghost var s := Last(sessions);
      SlotOfU16(n);
      var k := Slot(seqno);
      var f := Frame(true, rtptime, ring[k].lastResend, decode(payload));
      TakeKept(sessions, ring[..], owner, read, write, decode, frameSize, f, a, from);
      ghost var before := ring[..];
      ring[k] := f;
      assert ring[..] == before[k := f];
      abWrite := newWrite;
      write := Max(write, n);
      owner := owner[k := a];
      sessions := ReplaceLast(sessions, Took(s, a, from));
    }

    // What buffer_put_packet does when numbers are missing before the packet numbered n: the last of
    // them that the latency covers are asked for and get their timestamps.
    method NoteGap(seqno: int, rtptime: int, now: int, ghost n: int) returns (ghost from: int)
      requires Valid() && playing && seqno == U16(n) && write + 1 < n <= read + HALF
      modifies this`resentReq, ring
      ensures Sound() && from == GapStart(write, n, latency, frameSize) > write
      ensures Retimed(old(ring[..]), ring[..], from, n)
      ensures OneSlotEach(read, n - read + 1) ==>
                && Told(sessions, ring[..], owner, read, write, frameSize)
                && forall j :: from <= j < n ==> ring[Slot(j)].rtptime == GapTime(rtptime, seqno, U16(j), frameSize)
                                                 && ring[Slot(j)].lastResend == now
    {
      hide Slot, U16, S16, SeqOrder, Slots, SafeSlots, Current, SessionOk, AllOk, ResendAccepted, GapTime;
      ghost var before := ring[..];
      from := GapStart(write, n, latency, frameSize);
      GapStartIs(write, n, latency, frameSize);
      GapStartWraps(write, n, latency, frameSize);
      var w := abWrite;
      if latency != 0 && SeqOrder(latency / frameSize, seqno - w - 1) {
        w := U16(seqno - latency / frameSize);
      }
      var _ := RequestResend(w + 1, seqno - 1);
      FillGap(U16(w + 1), seqno, rtptime, now, from, n);
      RetimedSlots(before, ring[..], owner, decode, from, n);
      SubWindow(read, n, from);
      if OneSlotEach(read, n - read + 1) && Last(sessions).safe {
        RetimedSafe(Last(sessions), before, ring[..], owner, read, write, decode, frameSize, from, n);
      }
    }

    // The part of buffer_put_packet that runs while playing.
    method Receive(seqno: int, rtptime: int, payload: seq<byte>, now: int, clock: nat -> Millis)
      requires Valid() && playing && 0 <= seqno < SEQ_MOD
      requires -HALF <= NumberOf(read, seqno) - read <= HALF
      modifies this`abRead, this`abWrite, this`read, this`write, this`owner, this`sessions, this`resentReq, ring
      ensures Valid()
      ensures ReceiveStep(old(View()), NumberOf(old(read), seqno), rtptime, payload, clock, frameSize, View())
    {
      ghost var n := NumberOf(read, seqno);
      NumberIs(read, seqno);
      NumberFacts(seqno, read, write, n);
      hide Slot, U16, S16, SeqOrder, Slots, SafeSlots, Current, SessionOk, AllOk, GapStart, NumberOf, Pushed, Took;
      if seqno == U16(abWrite + 1) {
        AcceptAndPush(seqno, rtptime, payload, seqno, n, n, clock);
      } else if SeqOrder(abWrite, seqno) {
        ghost var from := NoteGap(seqno, rtptime, now, n);
        AcceptAndPush(seqno, rtptime, payload, seqno, n, from, clock);
      } else if SeqOrder(abRead, seqno + 1) {
        AcceptAndPush(seqno, rtptime, payload, abWrite, n, write + 1, clock);
      }
    }

    // The end of buffer_put_packet for a packet that is kept.
    method AcceptAndPush(seqno: int, rtptime: int, payload: seq<byte>, newWrite: int, ghost n: int, ghost from: int,
                         clock: nat -> Millis)
      requires Sound() && playing && seqno == U16(n)
      requires read <= n <= read + HALF && newWrite == U16(Max(write, n)) && write < from
      requires from == if n > write + 1 then GapStart(write, n, latency, frameSize) else Max(write + 1, n)
      requires Last(sessions).safe && OneSlotEach(read, n - read + 1) ==>
                 && SafeSlots(Last(sessions), ring[..], owner, read, write, frameSize)
                 && forall j :: from <= j < n ==>
                      ring[..][Slot(j)].rtptime == GapStamp(Arrival(n, rtptime, payload, n - read), j, frameSize)
      modifies this`abRead, this`abWrite, this`read, this`write, this`owner, this`sessions, this`resentReq, ring
      ensures Valid()
      ensures ReceiveStep(old(View()), n, rtptime, payload, clock, frameSize, View())
    {
      hide Slot, U16, S16, SeqOrder, Slots, SafeSlots, SessionOk, AllOk, GapStart, GapStamp, Pushed, Took;
      Accept(seqno, rtptime, payload, newWrite, n, from);
      ghost var mid := View();
      PushPacket(clock);
      PushedSame(mid, old(View()), mid.sessions, sessions, clock);
      StoppedSame(mid, old(View()), Last(sessions), Turns(mid.sessions, sessions), read, write, clock, frameSize);
    }

    // buffer_put_packet, for packets that land within a quarter of the numbers from the read end.
    method PutPacket(seqno: int, rtptime: int, payload: seq<byte>, now: int, clock: nat -> Millis)
      requires Valid() && 0 <= seqno < SEQ_MOD
      requires playing ==> -HALF <= NumberOf(read, seqno) - read <= HALF
      modifies this`abRead, this`abWrite, this`flushSeqno, this`playing,
               this`read, this`write, this`owner, this`sessions, this`resentReq, ring
      ensures Valid()
      ensures PacketStep(old(View()), seqno, rtptime, payload, clock, frameSize, View())
    {
      hide Slot, SeqOrder, Slots, SafeSlots, Current, SessionOk, AllOk, ReceiveStep;
      if !playing {
        if !((flushSeqno == -1 || SeqOrder(flushSeqno, seqno)) && rtpSync && ntpSync) {
          return;
        }
        Start(seqno);
        StartNumber(seqno);
      }
      Receive(seqno, rtptime, payload, now, clock);
    }

    // buffer_reset
    method Reset()
      requires ring.Length == FRAMES
      modifies ring
      ensures forall i :: 0 <= i < FRAMES ==> !ring[i].ready
    {
      for i := 0 to FRAMES
        invariant forall k :: 0 <= k < i ==> !ring[k].ready
      {
        ring[i] := ring[i].(ready := false);
      }
    }

    // rtp_record
    method RecordPoint(seqno: int, rtptime: int, now: int)
      requires Valid()
      modifies this`record
      ensures Valid() && View() == old(View()).(record := Record(now, seqno, rtptime))
    {
      record := Record(now, seqno, rtptime);
    }

    // rtp_flush
    method Flush(seqno: int, rtptime: int, now: int) returns (done: bool)
      requires Valid() && 0 <= seqno < SEQ_MOD
      modifies this`playing, this`flushSeqno, ring
      ensures Valid() && done == FlushCounts(record, seqno, rtptime, now)
      ensures View() == if done then old(View()).(playing := false, flush := seqno) else old(View())
      ensures done ==> forall i :: 0 <= i < FRAMES ==> !ring[i].ready
      ensures !done ==> ring[..] == old(ring[..])
    {
      if now < U32(record.time + 250) || (record.seqno == seqno && record.rtptime == rtptime) {
        return false;
      }
      Reset();
      playing := false;
      flushSeqno := seqno;
      done := true;
    }

    // The RTP sync packet (0x54): a new latency and time reference, unless the clock jumped.
    method SyncPacket(rtpNow: int, rtpNowLatency: int, flags: int, localTime: int, remoteGap: int)
      requires Valid()
      modifies this`latency, this`syncRtp, this`syncTime, this`rtpSync
      ensures Valid()
      ensures Step(old(View()), Sync(rtpNow, rtpNowLatency, flags, localTime, remoteGap), frameSize, View())
    {
      hide Kept, Told, AllOk, Wanted;
      if remoteGap > 10000 {
        return;
      }
      latency := Clamped(Wanted(rtpNow, rtpNowLatency, flags));
      syncRtp := U32(rtpNow - latency);
      syncTime := U32(localTime + remoteGap);
      rtpSync := true;
    }

    // The NTP timing reply (0x53) counts when it came back within 100 ms.
    method TimingReply(roundtrip: int)
      requires Valid()
      modifies this`ntpSync
      ensures Valid() && Step(old(View()), Timing(roundtrip), frameSize, View())
    {
      if roundtrip <= 100 {
        ntpSync := true;
      }
    }

    method Handle(e: Event)
      requires Valid() && Lands(View(), e)
      modifies this, ring
      ensures Valid() && Step(old(View()), e, frameSize, View())
    {
      hide SessionOk, AllOk, Slots, SafeSlots, Current, SeqOrder, U16, S16, ReceiveStep;
      match e
      case Packet(seqno, rtptime, payload, now, clock) =>
        PutPacket(seqno, rtptime, payload, now, clock);
      case FlushAt(seqno, rtptime, now) =>
        var _ := Flush(seqno, rtptime, now);
      case RecordAt(seqno, rtptime, now) =>
        RecordPoint(seqno, rtptime, now);
      case Sync(rtpNow, rtpNowLatency, flags, localTime, remoteGap) =>
        SyncPacket(rtpNow, rtpNowLatency, flags, localTime, remoteGap);
      case Timing(roundtrip) =>
        TimingReply(roundtrip);
    }

    // Whether the packet lands near enough, by the 16-bit ends of the window.
    predicate Arrivable(e: Event)
      reads this
    {
      e.Packet? && playing ==> -HALF <= S16(e.seqno - abRead) <= HALF
    }

    // Any schedule of packets, flushes and clock messages, up to a packet, if there is one, that lands
    // more than a quarter of the numbers from the read end. trace holds the states in between.
    method Run(events: seq<Event>) returns (done: nat, ghost trace: seq<State>)
      requires Valid()
      modifies this, ring
      ensures Valid() && done <= |events|
      ensures done < |events| ==>
                && events[done].Packet? && playing
                && !(-16384 <= NumberOf(read, events[done].seqno) - read <= 16384)
      ensures TraceOk(trace, events[..done], frameSize) && trace[0] == old(View()) && trace[done] == View()
    {
      hide Step, Slots, SafeSlots, SessionOk, AllOk, Current, U16, S16;
      done, trace := 0, [View()];
      while done < |events|
        invariant Valid() && done <= |events|
        invariant TraceOk(trace, events[..done], frameSize) && trace[0] == old(View()) && trace[done] == View()
      {
        if !Arrivable(events[done]) {
          return;
        }
        Handle(events[done]);
        trace := trace + [View()];
        assert events[..done + 1] == events[..done] + [events[done]];
        done := done + 1;
      }
    }
  }

  // Packets land within a quarter of the numbers from the read end, while it plays.
  predicate Lands(v: State, e: Event) {
    e.Packet? && v.playing ==> -HALF <= NumberOf(v.read, e.seqno) - v.read <= HALF
  }

  // Each event takes one state to the next.
  ghost predicate TraceOk(trace: seq<State>, events: seq<Event>, frameSize: nat) {
    && 0 < frameSize && |trace| == |events| + 1
    && forall i :: 0 <= i < |events| ==> Step(trace[i], events[i], frameSize, trace[i + 1])
  }

  lemma StartNumber(seqno: int)
    requires 0 <= seqno < SEQ_MOD
    ensures NumberOf(seqno, seqno) == seqno
  {
  }

  // A slot without a packet that is not due yet.
  lemma StillAwaited(v: State, sessions: seq<Session>, ring: seq<Frame>, owner: map<int, Arrival>, read: int,
                     write: int,
                     decode: Decoder, frameSize: nat, at: Moment, turns: nat, clock: nat -> Millis)
    requires Slots(ring, owner, decode) && Told(sessions, ring, owner, read, write, frameSize) && sessions != []
    requires read <= write && Slot(read) !in owner && at.rtptime == ring[Slot(read)].rtptime
    requires Made(v, at, clock(turns)) && at.safe == Last(sessions).safe
    requires at.now <= Due(at) && Due(at) - at.now > at.hold
    ensures PushStopped(v, Last(sessions), turns, read, write, clock, frameSize)
  {
    hide Slot, GapStamp, Due;
    assert Awaited(v, Last(sessions), read, at, clock(turns), frameSize);
  }

  lemma Stops(v: State, s: Session, turns: int, read: int, write: int, clock: nat -> Millis, frameSize: nat)
    ensures turns >= 1 && read >= write ==> PushStopped(v, s, turns, read, write, clock, frameSize)
  {
    hide Awaited;
  }

  lemma StoppedSame(v: State, v': State, s: Session, turns: int, read: int, write: int, clock: nat -> Millis,
                    frameSize: nat)
    requires PushStopped(v, s, turns, read, write, clock, frameSize)
    requires v.syncRtp == v'.syncRtp && v.syncTime == v'.syncTime && v.latency == v'.latency
    ensures PushStopped(v', s, turns, read, write, clock, frameSize)
  {
    hide GapStamp, Due;
    if !(turns >= 1 && read >= write) {
      var at :| Awaited(v, s, read, at, clock(turns), frameSize);
      assert Awaited(v', s, read, at, clock(turns), frameSize);
    }
  }

  lemma PushedNone(v: State, before: seq<Session>, clock: nat -> Millis)
    requires before != []
    ensures Pushed(v, before, before, clock)
  {
  }

  lemma PushedMore(v: State, before: seq<Session>, mid: seq<Session>, d: Disposal, clock: nat -> Millis)
    requires Pushed(v, before, mid, clock) && before != [] && mid != []
    requires |Last(before).disposals| <= |Last(mid).disposals|
    requires Made(v, d.at, clock(|Last(mid).disposals| - |Last(before).disposals|))
    ensures Pushed(v, before, ReplaceLast(mid, Disposed(Last(mid), d)), clock)
  {
    var after := ReplaceLast(mid, Disposed(Last(mid), d));
    hide Made;
    forall t: nat | t < |Last(after).disposals| - |Last(before).disposals|
      ensures Made(v, Last(after).disposals[|Last(before).disposals| + t].at, clock(t))
    {
      if t < |Last(mid).disposals| - |Last(before).disposals| {
        assert Last(after).disposals[|Last(before).disposals| + t] == Last(mid).disposals[|Last(before).disposals| + t];
      }
    }
  }

  // The view that Pushed depends on.
  lemma PushedSame(v: State, v': State, before: seq<Session>, after: seq<Session>, clock: nat -> Millis)
    requires Pushed(v, before, after, clock)
    requires v.syncRtp == v'.syncRtp && v.syncTime == v'.syncTime && v.latency == v'.latency
    ensures Pushed(v', before, after, clock)
  {
  }

  lemma SubWindow(read: int, n: int, from: int)
    requires read <= from
    ensures OneSlotEach(read, n - read + 1) ==> OneSlotEach(from, n - from)
  {
    hide Slot;
  }

  // Nothing differs but when a number was last asked for.
  ghost predicate Same(ring: seq<Frame>, ring': seq<Frame>)
  {
    |ring'| == |ring| &&
    forall i {:trigger ring'[i]} :: 0 <= i < |ring| ==>
      ring'[i].ready == ring[i].ready && ring'[i].pcm == ring[i].pcm && ring'[i].rtptime == ring[i].rtptime
  }

  lemma SameKeeps(s: Session, ring: seq<Frame>, ring': seq<Frame>, owner: map<int, Arrival>, read: int, write: int,
                  decode: Decoder, frameSize: nat)
    requires Slots(ring, owner, decode) && Same(ring, ring')
    ensures Slots(ring', owner, decode)
    ensures SafeSlots(s, ring, owner, read, write, frameSize) ==> SafeSlots(s, ring', owner, read, write, frameSize)
  {
    hide Slot, GapStamp;
  }

  // ---------------------------------------------------------------- whole runs

  // Nothing received and nothing disposed of is forgotten.
  ghost predicate Older(s: Session, s': Session) {
    s'.flush == s.flush && s'.start == s.start && s.received <= s'.received && s.disposals <= s'.disposals
  }

  ghost predicate Grown(ss: seq<Session>, ss': seq<Session>) {
    |ss| <= |ss'| && forall k :: 0 <= k < |ss| ==> Older(ss[k], ss'[k])
  }

  // What a packet is for the state it finds: the state with a session for it, and its number; None if
  // nothing plays yet.
  function Meets(v: State, seqno: int): Option<(State, int)> {
    if v.playing then Some((v, NumberOf(v.read, seqno)))
    else if MayStart(v, seqno) then Some((Started(v, seqno), seqno))
    else None
  }

  lemma ReceiveGrows(u: State, n: int, rtptime: int, payload: seq<byte>, clock: nat -> Millis, frameSize: nat, v: State)
    requires 0 < frameSize && ReceiveStep(u, n, rtptime, payload, clock, frameSize, v)
    ensures Grown(u.sessions, v.sessions) && |v.sessions| == |u.sessions|
    ensures n >= u.read ==> Last(v.sessions).received
                            == Last(u.sessions).received + {Arrival(n, rtptime, payload, n - u.read)}
    ensures n < u.read ==> v.sessions == u.sessions
    ensures forall k :: 0 <= k < |u.sessions| - 1 ==> v.sessions[k] == u.sessions[k]
  {
    hide GapStart, Filled;
    if n >= u.read {
      var taken := ReplaceLast(u.sessions, Taken(u, n, rtptime, payload, frameSize));
      forall k | 0 <= k < |u.sessions| - 1
        ensures v.sessions[k] == u.sessions[k]
      {
        assert v.sessions[..|taken| - 1][k] == taken[..|taken| - 1][k];
      }
    }
  }

  lemma StepGrows(v: State, e: Event, frameSize: nat, v': State)
    requires 0 < frameSize && Step(v, e, frameSize, v')
    ensures Grown(v.sessions, v'.sessions)
  {
    hide ReceiveStep;
    if e.Packet? && Meets(v, e.seqno).Some? {
      var (u, n) := Meets(v, e.seqno).value;
      ReceiveGrows(u, n, e.rtptime, e.payload, e.clock, frameSize, v');
    }
  }

  lemma {:induction false} TraceGrows(trace: seq<State>, events: seq<Event>, frameSize: nat, i: nat, j: nat)
    requires TraceOk(trace, events, frameSize) && i <= j < |trace|
    ensures Grown(trace[i].sessions, trace[j].sessions)
    decreases j - i
  {
    hide Step;
    if i < j {
      TraceGrows(trace, events, frameSize, i, j - 1);
      StepGrows(trace[j - 1], events[j - 1], frameSize, trace[j]);
    }
  }

  // A packet that finds the buffer playing, or starts it, and whose number is not behind the read end is
  // among the packets received, from then on.
  lemma PacketKept(trace: seq<State>, events: seq<Event>, frameSize: nat, i: nat)
    requires TraceOk(trace, events, frameSize) && i < |events| && events[i].Packet?
    requires Meets(trace[i], events[i].seqno).Some?
    ensures var e := events[i];
            var (u, n) := Meets(trace[i], e.seqno).value;
            && |u.sessions| <= |trace[|events|].sessions|
            && (n >= u.read ==>
                  && u.sessions != []
                  && Arrival(n, e.rtptime, e.payload, n - u.read)
                     in trace[|events|].sessions[|u.sessions| - 1].received)
  {
    var e := events[i];
    var (u, n) := Meets(trace[i], e.seqno).value;
    assert Step(trace[i], e, frameSize, trace[i + 1]);
    hide ReceiveStep;
    ReceiveGrows(u, n, e.rtptime, e.payload, e.clock, frameSize, trace[i + 1]);
    hide Step;
    TraceGrows(trace, events, frameSize, i + 1, |events|);
    if n >= u.read {
      var k := |u.sessions| - 1;
      assert Older(trace[i + 1].sessions[k], trace[|events|].sessions[k]);
    }
  }

  ghost predicate Sent(e: Event, a: Arrival) {
    e.Packet? && e.seqno == U16(a.number) && e.rtptime == a.rtptime && e.payload == a.payload
  }

  // Nothing is received but packets of the schedule.
  lemma {:induction false} ReceivedWasSent(trace: seq<State>, events: seq<Event>, frameSize: nat, i: nat, k: nat,
                                           a: Arrival)
    requires TraceOk(trace, events, frameSize) && i < |trace|
    requires k < |trace[i].sessions| && a in trace[i].sessions[k].received
    ensures (k < |trace[0].sessions| && a in trace[0].sessions[k].received)
            || exists m :: 0 <= m < i && Sent(events[m], a)
    decreases i
  {
    if i > 0 {
      var v, e, v' := trace[i - 1], events[i - 1], trace[i];
      assert Step(v, e, frameSize, v');
      hide ReceiveStep;
      if k < |v.sessions| && a in v.sessions[k].received {
        ReceivedWasSent(trace, events, frameSize, i - 1, k, a);
      } else {
        var (u, n) := Meets(v, e.seqno).value;
        ReceiveGrows(u, n, e.rtptime, e.payload, e.clock, frameSize, v');
        NumberIs(v.read, e.seqno);
        U16Id(e.seqno);
        assert Sent(e, a);
      }
    }
  }
}
