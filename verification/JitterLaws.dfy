/** components/raop/rtp.c: when playing starts and stops, and when a frame is due, in closed form. */
module JitterLaws {
  import opened JitterBuffer
  import opened JitterHistory
  import opened Memory
  import opened SeqNumbers
  import opened Wrappers

  // ---------------------------------------------------------------- when a frame is due

  // So 441 samples later is 10 ms later.
  lemma DueLater(rtptime: int, syncRtp: int, syncTime: int, k: nat)
    requires 10 * (k + 441) < 0x1_0000_0000 && (rtptime - syncRtp - k) % 0x1_0000_0000 == 0
    ensures PlayTime(rtptime + 441, syncRtp, syncTime) == (PlayTime(rtptime, syncRtp, syncTime) + 10) % 0x1_0000_0000
  {
    hide PlayTime;
    DueAfter(rtptime, syncRtp, syncTime, k);
    DueAfter(rtptime + 441, syncRtp, syncTime, k + 441);
    assert (k + 441) * 10 / 441 == k * 10 / 441 + 10;
    Add10(syncTime + k * 10 / 441);
  }

  lemma Add10(x: int)
    ensures (x + 10) % 0x1_0000_0000 == (x % 0x1_0000_0000 + 10) % 0x1_0000_0000
  {
  }

  // Missing frames are given up an eighth of the latency ahead, but at least 100 ms.
  lemma HoldIs(latency: nat)
    ensures HoldOf(latency) >= 100 && HoldOf(latency) * 352800 <= Max(latency * 1000, 35280000)
    ensures Max(latency * 1000, 35280000) < (HoldOf(latency) + 1) * 352800
    ensures HoldOf(MIN_LATENCY) == 100 && HoldOf(MAX_LATENCY) == 300
  {
  }

  // ---------------------------------------------------------------- when playing starts

  // b comes after a within half the range of 16-bit numbers.
  predicate Behind(a: int, b: int) {
    1 <= (b - a) % 65536 < 32768
  }

  lemma OrderIsBehind(a: int, b: int)
    ensures SeqOrder(a, b) <==> Behind(a, b)
  {
  }

  // The packet may start playing.
  predicate Opens(v: State, seqno: int) {
    v.rtpSync && v.ntpSync && (v.flush == -1 || Behind(v.flush, seqno))
  }

  // The newest session was opened by this packet.
  ghost predicate OpenedBy(v: State, before: seq<Session>, flush: int, seqno: int, rtptime: int, payload: seq<byte>) {
    && |v.sessions| == |before| + 1 && v.sessions[..|before|] == before
    && Last(v.sessions).start == seqno && Last(v.sessions).flush == flush
    && Arrival(seqno, rtptime, payload, 0) in Last(v.sessions).received
  }

  // A packet makes an idle buffer play exactly when both clocks are known and no flush is to be passed, or it
  // is behind the flush. Then a session begins at its number, with that flush, and has it; else nothing
  // happens.
  lemma StartsExactly(v: State, seqno: Seqno, rtptime: int, payload: seq<byte>, clock: nat -> Millis,
                      frameSize: nat, v': State)
    requires 0 < frameSize && !v.playing && PacketStep(v, seqno, rtptime, payload, clock, frameSize, v')
    ensures v'.playing <==> Opens(v, seqno)
    ensures Opens(v, seqno) ==> v'.flush == -1 && OpenedBy(v', v.sessions, v.flush, seqno, rtptime, payload)
    ensures !Opens(v, seqno) ==> v' == v
  {
    if v.flush != -1 {
      OrderIsBehind(v.flush, seqno);
    }
    hide SeqOrder, Behind, ReceiveStep;
    if Opens(v, seqno) {
      ReceiveGrows(Started(v, seqno), seqno, rtptime, payload, clock, frameSize, v');
      ReceiveKeeps(Started(v, seqno), seqno, rtptime, payload, clock, frameSize, v');
      NewSession(v, seqno, v');
    }
  }

  lemma ReceiveKeeps(u: State, n: int, rtptime: int, payload: seq<byte>, clock: nat -> Millis, frameSize: nat, v: State)
    requires 0 < frameSize && ReceiveStep(u, n, rtptime, payload, clock, frameSize, v)
    ensures v.playing == u.playing && v.flush == u.flush && v.rtpSync == u.rtpSync && v.ntpSync == u.ntpSync
  {
    hide GapStart, Taken, Pushed, Awaited;
  }

  lemma NewSession(v: State, seqno: int, v': State)
    requires |v'.sessions| == |v.sessions| + 1 && Grown(Started(v, seqno).sessions, v'.sessions)
    requires forall k :: 0 <= k < |v.sessions| ==> v'.sessions[k] == Started(v, seqno).sessions[k]
    ensures v'.sessions[..|v.sessions|] == v.sessions
    ensures Last(v'.sessions).start == seqno && Last(v'.sessions).flush == v.flush
  {
    assert Older(Started(v, seqno).sessions[|v.sessions|], v'.sessions[|v.sessions|]);
  }

  // ---------------------------------------------------------------- while it plays

  // The missing numbers that packet n gives a timestamp: all in front of it, or, when they are more than the
  // latency has frames, only the last.
  predicate InGap(v: State, n: int, frameSize: nat, j: int)
    requires 0 < frameSize
  {
    && v.write < j < n
    && (v.latency == 0 || n - v.write - 1 <= v.latency / frameSize || n - v.latency / frameSize < j)
  }

  // A packet for a buffer that plays, n being its number within 16384 of the read end: behind that it changes
  // nothing. Else the newest session has it, the window reaches to it, and missing numbers are timed by it.
  lemma KeptExactly(v: State, n: int, rtptime: int, payload: seq<byte>, clock: nat -> Millis, frameSize: nat, v': State)
    requires 0 < frameSize && v.latency / frameSize < 32768 && v.playing && v.sessions != []
    requires -16384 <= n - v.read <= 16384 && v.read - 1 <= v.write
    requires PacketStep(v, n % 65536, rtptime, payload, clock, frameSize, v')
    ensures n < v.read ==> v' == v
    ensures n >= v.read ==>
              var s, s' := Last(v.sessions), Last(v'.sessions);
              var a := Arrival(n, rtptime, payload, n - v.read);
              && v'.write == Max(v.write, n) && s'.received == s.received + {a}
              && (forall j :: j in s'.gaps <==> j in s.gaps || InGap(v, n, frameSize, j))
              && (forall j :: j in s'.gaps ==> s'.gaps[j] == if InGap(v, n, frameSize, j) then a else s.gaps[j])
  {
    NumberBack(v.read, n);
    hide NumberOf, GapStart, PushStopped;
    if v.latency > 0 && 1 <= n - v.write - 1 {
      GapStartIs(v.write, n, v.latency, frameSize);
    } else if v.latency == 0 {
      NoCap(v.write, n, frameSize);
    }
  }

  lemma NoCap(write: int, n: int, frameSize: nat)
    requires 0 < frameSize
    ensures GapStart(write, n, 0, frameSize) == write + 1
  {
  }

  lemma NumberBack(read: int, n: int)
    requires -16384 <= n - read <= 16384
    ensures NumberOf(read, n % 65536) == n
  {
    hide S16;
    S16Same(n % 65536 - U16(read), n - read);
    S16Small(n - read, n - read);
  }

  // What the push loop disposes of then, it judges by its clock and by the reference of the last sync packet.
  lemma JudgedBy(v: State, n: int, rtptime: int, payload: seq<byte>, clock: nat -> Millis, frameSize: nat, v': State,
                 t: nat)
    requires 0 < frameSize && v.sessions != [] && v.playing
    requires PacketStep(v, n, rtptime, payload, clock, frameSize, v')
    requires |Last(v.sessions).disposals| + t < |Last(v'.sessions).disposals|
    ensures var at := Last(v'.sessions).disposals[|Last(v.sessions).disposals| + t].at;
            && at.now == clock(t) && at.syncRtp == v.syncRtp && at.syncTime == v.syncTime
            && at.hold == Max(v.latency * 1000 / 352800, 100)
  {
    hide GapStart, PushStopped, NumberOf;
  }

  // ---------------------------------------------------------------- when it stops

  // A flush counts unless it comes within a quarter of a second of a record, or repeats its point.
  lemma FlushExactly(v: State, seqno: Seqno, rtptime: int, now: int, frameSize: nat, v': State)
    requires 0 < frameSize && Step(v, FlushAt(seqno, rtptime, now), frameSize, v')
    ensures if now < (v.record.time + 250) % 0x1_0000_0000 || (v.record.seqno == seqno && v.record.rtptime == rtptime)
            then v' == v
            else !v'.playing && v'.flush == seqno && v'.sessions == v.sessions
                 && v'.rtpSync == v.rtpSync && v'.ntpSync == v.ntpSync
  {
  }

  // Nothing but such a flush stops playing or sets the flush to pass.
  lemma OnlyFlushStops(v: State, e: Event, frameSize: nat, v': State)
    requires 0 < frameSize && Step(v, e, frameSize, v') && !e.FlushAt?
    ensures v.playing ==> v'.playing && v'.flush == v.flush
    ensures !v.playing && !(e.Packet? && Opens(v, e.seqno)) ==>
              !v'.playing && v'.flush == v.flush && v'.sessions == v.sessions
    ensures (v.rtpSync ==> v'.rtpSync) && (v.ntpSync ==> v'.ntpSync)
  {
    hide ReceiveStep, SeqOrder, Behind;
    if e.Packet? {
      if v.playing {
        ReceiveKeeps(v, NumberOf(v.read, e.seqno), e.rtptime, e.payload, e.clock, frameSize, v');
      } else {
        StartsExactly(v, e.seqno, e.rtptime, e.payload, e.clock, frameSize, v');
        if Opens(v, e.seqno) {
          OpensIs(v, e.seqno);
          ReceiveKeeps(Started(v, e.seqno), e.seqno, e.rtptime, e.payload, e.clock, frameSize, v');
        }
      }
    }
  }

  lemma OpensIs(v: State, seqno: int)
    ensures Opens(v, seqno) <==> MayStart(v, seqno)
  {
    if v.flush != -1 {
      OrderIsBehind(v.flush, seqno);
    }
  }

  // While the buffer is idle, events that open nothing and no flush leave it so.
  lemma {:induction false} StaysIdle(trace: seq<State>, events: seq<Event>, frameSize: nat, i: nat, j: nat)
    requires TraceOk(trace, events, frameSize) && i <= j <= |events| && !trace[i].playing
    requires forall m :: i <= m < j ==> !events[m].FlushAt? && !(events[m].Packet? && Opens(trace[m], events[m].seqno))
    ensures !trace[j].playing && trace[j].flush == trace[i].flush && trace[j].sessions == trace[i].sessions
    decreases j - i
  {
    hide Step, Opens;
    if i < j {
      StaysIdle(trace, events, frameSize, i, j - 1);
      assert Step(trace[j - 1], events[j - 1], frameSize, trace[j]);
      OnlyFlushStops(trace[j - 1], events[j - 1], frameSize, trace[j]);
    }
  }

  // Over a run: after a flush at number f that counts, the first packet behind f that finds both clocks known
  // opens a session, and nothing plays before.
  lemma FlushThenStart(trace: seq<State>, events: seq<Event>, frameSize: nat, i: nat, j: nat)
    requires TraceOk(trace, events, frameSize) && i < j < |events| && events[i].FlushAt? && events[j].Packet?
    requires var r, f := trace[i].record, events[i];
             f.now >= (r.time + 250) % 0x1_0000_0000 && (r.seqno != f.seqno || r.rtptime != f.rtptime)
    requires forall m :: i < m < j ==> !events[m].FlushAt?
    requires forall m :: i < m < j && events[m].Packet? ==>
               !(trace[m].rtpSync && trace[m].ntpSync && Behind(events[i].seqno, events[m].seqno))
    requires trace[j].rtpSync && trace[j].ntpSync && Behind(events[i].seqno, events[j].seqno)
    ensures forall m :: i < m <= j ==> !trace[m].playing && trace[m].sessions == trace[i].sessions
    ensures trace[j + 1].playing
    ensures OpenedBy(trace[j + 1], trace[i].sessions, events[i].seqno, events[j].seqno, events[j].rtptime,
                     events[j].payload)
  {
    var f, e := events[i], events[j];
    assert Step(trace[i], f, frameSize, trace[i + 1]);
    FlushExactly(trace[i], f.seqno, f.rtptime, f.now, frameSize, trace[i + 1]);
    hide Step, Behind;
    IdleUntil(trace, events, frameSize, i, j);
    assert Step(trace[j], e, frameSize, trace[j + 1]);
    PacketIs(trace[j], e, frameSize, trace[j + 1]);
    StartsExactly(trace[j], e.seqno, e.rtptime, e.payload, e.clock, frameSize, trace[j + 1]);
  }

  lemma PacketIs(v: State, e: Event, frameSize: nat, v': State)
    requires 0 < frameSize && Step(v, e, frameSize, v') && e.Packet?
    ensures PacketStep(v, e.seqno, e.rtptime, e.payload, e.clock, frameSize, v')
  {
    hide PacketStep;
  }

  lemma {:induction false} IdleUntil(trace: seq<State>, events: seq<Event>, frameSize: nat, i: nat, j: nat)
    requires TraceOk(trace, events, frameSize) && i < j < |events| && events[i].FlushAt?
    requires !trace[i + 1].playing && trace[i + 1].flush == events[i].seqno
    requires forall m :: i < m < j ==> !events[m].FlushAt?
    requires forall m :: i < m < j && events[m].Packet? ==>
               !(trace[m].rtpSync && trace[m].ntpSync && Behind(events[i].seqno, events[m].seqno))
    ensures forall m :: i < m <= j ==>
              !trace[m].playing && trace[m].sessions == trace[i + 1].sessions && trace[m].flush == events[i].seqno
    decreases j
  {
    hide Step, Behind;
    if i + 1 < j {
      IdleUntil(trace, events, frameSize, i, j - 1);
      assert Step(trace[j - 1], events[j - 1], frameSize, trace[j]);
      OnlyFlushStops(trace[j - 1], events[j - 1], frameSize, trace[j]);
    }
  }

  // ---------------------------------------------------------------- the time reference

  // A sync packet without a jump of more than ten seconds: the latency is what the sender keeps between its
  // two timestamps, with 11025 more for flags 4 and 7, kept from 11025 to 105840. The sample that far
  // before the sender's is due when the packet says, and the sender's own that much later.
  lemma SyncIs(v: State, rtpNow: int, lag: int, flags: int, localTime: int, remoteGap: int, frameSize: nat, v': State)
    requires 0 < frameSize && -0x8000_0000 <= lag < 0x8000_0000 && remoteGap <= 10000
    requires Step(v, Sync(rtpNow, rtpNow - lag, flags, localTime, remoteGap), frameSize, v')
    ensures var wanted := lag + if flags == 4 || flags == 7 then 11025 else 0;
            v'.latency == if wanted < 11025 then 11025 else if wanted > 105840 then 105840 else wanted
    ensures PlayTime(rtpNow - v'.latency, v'.syncRtp, v'.syncTime) == (localTime + remoteGap) % 0x1_0000_0000
    ensures PlayTime(rtpNow, v'.syncRtp, v'.syncTime) == (localTime + remoteGap + v'.latency * 10 / 441) % 0x1_0000_0000
    ensures v'.rtpSync && v'.sessions == v.sessions && v'.playing == v.playing
  {
    hide PlayTime;
    var l := v'.latency;
    DueAfter(rtpNow - l, v'.syncRtp, v'.syncTime, 0);
    DueAfter(rtpNow, v'.syncRtp, v'.syncTime, l);
    Reduced(localTime + remoteGap, l * 10 / 441);
  }

  lemma Reduced(x: int, y: int)
    ensures (x % 0x1_0000_0000 + y) % 0x1_0000_0000 == (x + y) % 0x1_0000_0000
  {
  }

  // A jump of more than ten seconds, and a reply that took more than 100 ms, change nothing; a record point is
  // kept for the next flush.
  lemma OtherEvents(v: State, e: Event, frameSize: nat, v': State)
    requires 0 < frameSize && Step(v, e, frameSize, v')
    ensures e.Sync? && e.remoteGap > 10000 ==> v' == v
    ensures e.Timing? ==> v' == if e.roundtrip > 100 then v else v.(ntpSync := true)
    ensures e.RecordAt? ==> v' == v.(record := v'.record) && v'.record.time == e.now
                            && v'.record.seqno == e.seqno && v'.record.rtptime == e.rtptime
  {
  }
}
