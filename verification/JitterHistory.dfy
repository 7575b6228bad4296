/** components/raop/rtp.c: what the jitter buffer did with the packets of a playing period, and which
    packet each slot of its ring holds. Numbers are unbounded; the firmware keeps them modulo 65536. */
module JitterHistory {
  import opened Memory
  import opened SeqNumbers
  import opened Wrappers

  datatype Frame = Frame(ready: bool, rtptime: int, lastResend: int, pcm: seq<byte>)

  // A packet that was put in the ring, with its virtual number and how far ahead of the read end it was.
  datatype Arrival = Arrival(number: int, rtptime: int, payload: seq<byte>, ahead: int)

  // The packet landed inside the safe window: from the read end to it the ring tells the numbers apart,
  // being at most 286 or, on one side of the wrap, 375.
  ghost predicate Apart(a: Arrival) {
    OneSlotEach(a.number - a.ahead, a.ahead + 1)
  }

  // What the push loop saw when it disposed of a number: the clock, the timestamp in the slot, the time
  // reference, how early it gives up, and whether every packet so far had landed inside the window
  // in which the ring tells numbers apart.
  datatype Moment = Moment(now: int, rtptime: int, syncRtp: int, syncTime: int, hold: int, safe: bool)

  datatype Fate = Played(source: Arrival, pcm: seq<byte>) | Discarded(lost: Option<Arrival>) | Silenced

  datatype Disposal = Disposal(number: int, at: Moment, fate: Fate)

  // One playing period: the flush it follows (-1 if none), its first number, the packets put in the
  // ring, the packet that gave a missing number its timestamp, whether all packets landed inside the
  // safe window, and what became of each number.
  datatype Session = Session(flush: int, start: int, received: set<Arrival>, gaps: map<int, Arrival>, safe: bool,
                             disposals: seq<Disposal>)

  type Decoder = seq<byte> -> seq<byte>

  // Milliseconds at which a frame is due, in the u32 arithmetic of the source.
  function PlayTime(rtptime: int, syncRtp: int, syncTime: int): (t: int)
    ensures 0 <= t < U32_MOD
  {
    U32(syncTime + U32(U32(rtptime - syncRtp) * 10) / 441)
  }

  // A frame k samples after the reference, both modulo 2^32, is due k / 44.1 ms after the reference's
  // time, rounded down, modulo 2^32.
  lemma DueAfter(rtptime: int, syncRtp: int, syncTime: int, k: nat)
    requires 10 * k < 0x1_0000_0000 && (rtptime - syncRtp - k) % 0x1_0000_0000 == 0
    ensures PlayTime(rtptime, syncRtp, syncTime) == (syncTime + k * 10 / 441) % 0x1_0000_0000
  {
    var q := (rtptime - syncRtp - k) / 0x1_0000_0000;
    assert rtptime - syncRtp == q * 0x1_0000_0000 + k;
    DivModUnique(rtptime - syncRtp, q, 0x1_0000_0000, k);
  }

  function Due(at: Moment): int {
    PlayTime(at.rtptime, at.syncRtp, at.syncTime)
  }

  function PacketOf(f: Fate): Option<Arrival> {
    match f
    case Played(a, _) => Some(a)
    case Discarded(lost) => lost
    case Silenced => None
  }

  // The timestamp that packet a gives to an earlier missing number.
  function GapStamp(a: Arrival, j: int, frameSize: nat): int {
    GapTime(a.rtptime, U16(a.number), U16(j), frameSize)
  }

  // ---------------------------------------------------------------- history

  // Numbers are disposed of consecutively from the first on, each once: discarded exactly when late by
  // the timestamp in its slot, silenced only when due. The packet played or thrown away is one received
  // in this period, for the same slot.
  ghost predicate DisposalOk(s: Session, k: nat, decode: Decoder, frameSize: nat)
    requires k < |s.disposals|
  {
    var d := s.disposals[k];
    && d.number == s.start + k
    && (d.fate.Discarded? <==> d.at.now > Due(d.at))
    && (d.fate.Silenced? ==> Due(d.at) - d.at.now <= d.at.hold)
    && (d.fate.Played? ==> d.fate.pcm == decode(d.fate.source.payload))
    && (PacketOf(d.fate).Some? ==>
          PacketOf(d.fate).value in s.received && Slot(PacketOf(d.fate).value.number) == Slot(d.number))
    && (d.at.safe ==> Exact(s, d, frameSize))
  }

  // Inside the safe window the packet is that of the number, judged by its own timestamp; without one
  // none was ever received, and the timestamp is the one interpolated for the gap, if any was.
  ghost predicate Exact(s: Session, d: Disposal, frameSize: nat) {
    match PacketOf(d.fate)
    case Some(a) => a.number == d.number && a.rtptime == d.at.rtptime
    case None =>
      && (forall a :: a in s.received ==> a.number != d.number)
      && (d.number in s.gaps ==> d.at.rtptime == GapStamp(s.gaps[d.number], d.number, frameSize))
  }

  ghost predicate SessionOk(s: Session, decode: Decoder, frameSize: nat)
  {
    && (s.flush == -1 || SeqOrder(s.flush, U16(s.start)))
    && (s.safe <==> forall a :: a in s.received ==> Apart(a))
    && (forall k :: 0 <= k < |s.disposals| ==> DisposalOk(s, k, decode, frameSize))
    && (s.safe ==> forall k :: 0 <= k < |s.disposals| ==> s.disposals[k].at.safe)
    && (forall j :: j in s.gaps ==> s.gaps[j] in s.received && j < s.gaps[j].number)
  }

  ghost predicate AllOk(sessions: seq<Session>, decode: Decoder, frameSize: nat) {
    forall k :: 0 <= k < |sessions| ==> SessionOk(sessions[k], decode, frameSize)
  }

  // A period all of whose packets landed inside the safe window: the number of a packet was disposed of
  // exactly once, by that packet's own timestamp or that of another packet of the same number, never as
  // silence, and if it was played then from a packet of that number. It was discarded exactly when the clock
  // was past the time of its sample, counted from the time reference.
  lemma ReceivedOnce(s: Session, decode: Decoder, frameSize: nat, a: Arrival)
    requires SessionOk(s, decode, frameSize) && a in s.received
    requires forall b :: b in s.received ==> Apart(b)
    requires s.start <= a.number < s.start + |s.disposals|
    ensures var d := s.disposals[a.number - s.start];
            && (forall k :: 0 <= k < |s.disposals| ==>
                  (s.disposals[k].number == a.number <==> k == a.number - s.start))
            && PacketOf(d.fate).Some?
            && PacketOf(d.fate).value in s.received && PacketOf(d.fate).value.number == a.number
            && d.at.rtptime == PacketOf(d.fate).value.rtptime
            && (d.fate.Discarded? <==> d.at.now > PlayTime(PacketOf(d.fate).value.rtptime, d.at.syncRtp, d.at.syncTime))
            && (d.fate.Played? ==> d.fate.pcm == decode(PacketOf(d.fate).value.payload))
            && (forall k: nat :: 10 * k < 0x1_0000_0000
                                 && (PacketOf(d.fate).value.rtptime - d.at.syncRtp - k) % 0x1_0000_0000 == 0 ==>
                  (d.fate.Discarded? <==> d.at.now > (d.at.syncTime + k * 10 / 441) % 0x1_0000_0000))
  {
    hide PlayTime, Slot;
    forall k | 0 <= k < |s.disposals|
      ensures s.disposals[k].number == s.start + k
    {
      assert DisposalOk(s, k, decode, frameSize);
    }
    assert DisposalOk(s, a.number - s.start, decode, frameSize);
    var at, p := s.disposals[a.number - s.start].at, PacketOf(s.disposals[a.number - s.start].fate).value;
    forall k: nat | 10 * k < 0x1_0000_0000 && (p.rtptime - at.syncRtp - k) % 0x1_0000_0000 == 0
      ensures PlayTime(p.rtptime, at.syncRtp, at.syncTime) == (at.syncTime + k * 10 / 441) % 0x1_0000_0000
    {
      DueAfter(p.rtptime, at.syncRtp, at.syncTime, k);
    }
  }

  // A number nobody sent is never played: it is discarded when late and silenced when due, by whatever
  // timestamp its slot has.
  lemma NeverSent(s: Session, decode: Decoder, frameSize: nat, j: int)
    requires SessionOk(s, decode, frameSize)
    requires forall b :: b in s.received ==> Apart(b) && b.number != j
    requires s.start <= j < s.start + |s.disposals|
    ensures var d := s.disposals[j - s.start];
            && d.number == j && PacketOf(d.fate).None? && !d.fate.Played?
            && (d.fate.Discarded? <==> d.at.now > Due(d.at))
            && (d.fate.Silenced? <==> d.at.now <= Due(d.at)) && (d.fate.Silenced? ==> Due(d.at) - d.at.now <= d.at.hold)
  {
    hide PlayTime, Slot, GapStamp, Due;
    assert DisposalOk(s, j - s.start, decode, frameSize);
  }

  // ... and when a gap gave it one, that is the timestamp interpolated for it.
  lemma MissingOnce(s: Session, decode: Decoder, frameSize: nat, j: int)
    requires SessionOk(s, decode, frameSize)
    requires forall b :: b in s.received ==> Apart(b) && b.number != j
    requires s.start <= j < s.start + |s.disposals| && j in s.gaps
    ensures var d := s.disposals[j - s.start];
            Due(d.at) == PlayTime(GapStamp(s.gaps[j], j, frameSize), d.at.syncRtp, d.at.syncTime)
  {
    hide PlayTime, Slot, GapStamp;
    NeverSent(s, decode, frameSize, j);
    assert DisposalOk(s, j - s.start, decode, frameSize);
  }

  // ---------------------------------------------------------------- slots

  // owner gives the packet behind every ready slot, by slot.
  ghost predicate Slots(ring: seq<Frame>, owner: map<int, Arrival>, decode: Decoder)
  {
    && |ring| == FRAMES
    && (forall i :: 0 <= i < FRAMES ==> (ring[i].ready <==> i in owner))
    && (forall i :: i in owner ==>
          0 <= i < FRAMES && Slot(owner[i].number) == i && ring[i].pcm == decode(owner[i].payload))
  }

  ghost predicate Current(s: Session, owner: map<int, Arrival>, read: int, write: int)
  {
    && read == s.start + |s.disposals|
    && (forall a :: a in s.received ==> a.number <= write)
    && (forall i :: i in owner ==> owner[i] in s.received)
    && (forall j :: j in s.gaps ==> j <= write)
  }

  // Inside the safe window the slots tell the numbers apart: every packet not yet reached has its slot,
  // with its timestamp, and a missing number's slot has the timestamp of its gap.
  ghost predicate SafeSlots(s: Session, ring: seq<Frame>, owner: map<int, Arrival>, read: int, write: int,
                            frameSize: nat)
    requires |ring| == FRAMES
  {
    && OneSlotEach(read, write - read + 1)
    && (forall i :: i in owner ==>
          0 <= i < FRAMES && read <= owner[i].number <= write && ring[i].rtptime == owner[i].rtptime)
    && (forall a :: a in s.received && read <= a.number ==>
          Slot(a.number) in owner && owner[Slot(a.number)].number == a.number)
    && (forall j :: j in s.gaps && read <= j <= write && Slot(j) !in owner ==>
          ring[Slot(j)].rtptime == GapStamp(s.gaps[j], j, frameSize))
  }

  // In the safe window a ready slot belongs to exactly one number, which has a packet.
  lemma OneOwner(s: Session, ring: seq<Frame>, owner: map<int, Arrival>, read: int, write: int, decode: Decoder,
                 frameSize: nat, v: int)
    requires Slots(ring, owner, decode) && Current(s, owner, read, write)
    requires SafeSlots(s, ring, owner, read, write, frameSize) && read <= v <= write
    ensures ring[Slot(v)].ready <==> exists a :: a in s.received && a.number == v
    ensures ring[Slot(v)].ready ==> owner[Slot(v)].number == v
    ensures forall u :: read <= u <= write && u != v ==> Slot(u) != Slot(v)
  {
    hide Slot;
    if ring[Slot(v)].ready {
      assert owner[Slot(v)] in s.received;
    }
  }

  // ---------------------------------------------------------------- disposing of a number

  // A disposal as the push loop makes it.
  ghost predicate Fits(s: Session, d: Disposal, f: Frame, holder: Option<Arrival>, read: int) {
    && d.number == read && d.at.rtptime == f.rtptime && d.at.safe == s.safe
    && (d.fate.Discarded? <==> d.at.now > Due(d.at))
    && (d.fate.Silenced? ==> Due(d.at) - d.at.now <= d.at.hold)
    && PacketOf(d.fate) == holder
    && (d.fate.Played? ==> d.fate.pcm == f.pcm)
  }

  function Holder(owner: map<int, Arrival>, i: int): Option<Arrival> {
    if i in owner then Some(owner[i]) else None
  }

  function Disposed(s: Session, d: Disposal): Session {
    s.(disposals := s.disposals + [d])
  }

  lemma DisposeSlots(ring: seq<Frame>, owner: map<int, Arrival>, decode: Decoder, k: int)
    requires Slots(ring, owner, decode) && 0 <= k < FRAMES
    ensures Slots(ring[k := ring[k].(ready := false)], owner - {k}, decode)
  {
    hide Slot;
  }

  lemma DisposeExact(s: Session, ring: seq<Frame>, owner: map<int, Arrival>, read: int, write: int,
                     decode: Decoder, frameSize: nat, d: Disposal)
    requires Slots(ring, owner, decode) && Current(s, owner, read, write) && read <= write
    requires SafeSlots(s, ring, owner, read, write, frameSize)
    requires Fits(s, d, ring[Slot(read)], Holder(owner, Slot(read)), read)
    ensures Exact(s, d, frameSize)
  {
    OneOwner(s, ring, owner, read, write, decode, frameSize, read);
    hide Slot, Due, GapStamp;
  }

  lemma DisposeOk(s: Session, ring: seq<Frame>, owner: map<int, Arrival>, read: int, write: int,
                  decode: Decoder, frameSize: nat, d: Disposal)
    requires SessionOk(s, decode, frameSize) && Slots(ring, owner, decode)
    requires Current(s, owner, read, write) && read <= write
    requires s.safe ==> SafeSlots(s, ring, owner, read, write, frameSize)
    requires Fits(s, d, ring[Slot(read)], Holder(owner, Slot(read)), read)
    ensures SessionOk(Disposed(s, d), decode, frameSize)
  {
    if s.safe {
      DisposeExact(s, ring, owner, read, write, decode, frameSize, d);
    }
    hide Slot, Due, GapStamp;
    var s' := Disposed(s, d);
    forall k | 0 <= k < |s'.disposals|
      ensures DisposalOk(s', k, decode, frameSize)
    {
      if k < |s.disposals| {
        assert DisposalOk(s, k, decode, frameSize);
      }
    }
  }

  lemma DisposeSafe(s: Session, ring: seq<Frame>, owner: map<int, Arrival>, read: int, write: int,
                    decode: Decoder, frameSize: nat, d: Disposal)
    requires Slots(ring, owner, decode) && Current(s, owner, read, write) && read <= write
    requires SafeSlots(s, ring, owner, read, write, frameSize)
    ensures var k := Slot(read);
            SafeSlots(Disposed(s, d), ring[k := ring[k].(ready := false)], owner - {k}, read + 1, write, frameSize)
  {
    OneOwner(s, ring, owner, read, write, decode, frameSize, read);
    hide Slot, GapStamp;
    var k := Slot(read);
    forall i | i in owner && i != k
      ensures owner[i].number != read
    {
      assert Slot(owner[i].number) == i;
    }
  }

  // ---------------------------------------------------------------- taking a packet

  // Packet a for each of the numbers from..n.
  function Filled(a: Arrival, from: int, n: int): (m: map<int, Arrival>)
    ensures forall j :: j in m <==> from <= j < n
    ensures forall j :: j in m ==> m[j] == a
    decreases n - from
  {
    if from >= n then map[] else Filled(a, from, n - 1)[n - 1 := a]
  }

  // The session with a packet that fills the gap from `from` on.
  ghost function Took(s: Session, a: Arrival, from: int): Session {
    s.(received := s.received + {a},
       gaps := s.gaps + Filled(a, from, a.number),
       safe := s.safe && Apart(a))
  }

  lemma TakeSlots(ring: seq<Frame>, owner: map<int, Arrival>, decode: Decoder, f: Frame, a: Arrival)
    requires Slots(ring, owner, decode) && f.ready && f.pcm == decode(a.payload)
    ensures Slots(ring[Slot(a.number) := f], owner[Slot(a.number) := a], decode)
  {
    hide U16;
  }

  lemma TakeOk(s: Session, owner: map<int, Arrival>, read: int, write: int, decode: Decoder, frameSize: nat,
               a: Arrival, from: int)
    requires SessionOk(s, decode, frameSize) && Current(s, owner, read, write)
    requires read <= a.number && read <= from
    ensures SessionOk(Took(s, a, from), decode, frameSize)
  {
    hide Slot, Due, GapStamp;
    var s' := Took(s, a, from);
    forall k | 0 <= k < |s'.disposals|
      ensures DisposalOk(s', k, decode, frameSize)
    {
      assert DisposalOk(s, k, decode, frameSize);
    }
  }

  lemma TakeCurrent(s: Session, owner: map<int, Arrival>, read: int, write: int, a: Arrival, from: int)
    requires Current(s, owner, read, write)
    ensures Current(Took(s, a, from), owner[Slot(a.number) := a], read, Max(write, a.number))
  {
    hide Slot;
  }

  // The ring after the gap loop filled the numbers from..n.
  ghost predicate Retimed(ring: seq<Frame>, ring': seq<Frame>, from: int, n: int) {
    && |ring'| == |ring| == FRAMES
    && (forall i {:trigger ring'[i]} :: 0 <= i < FRAMES ==>
          ring'[i].ready == ring[i].ready && ring'[i].pcm == ring[i].pcm)
    && (forall i {:trigger ring'[i]} :: 0 <= i < FRAMES && ring'[i].rtptime != ring[i].rtptime ==>
          exists j :: from <= j < n && Slot(j) == i)
  }

  lemma RetimedSlots(ring: seq<Frame>, ring': seq<Frame>, owner: map<int, Arrival>, decode: Decoder, from: int, n: int)
    requires Slots(ring, owner, decode) && Retimed(ring, ring', from, n)
    ensures Slots(ring', owner, decode)
  {
    hide Slot;
  }

  // Filling a gap inside the safe window disturbs no packet and no earlier gap.
  lemma RetimedSafe(s: Session, ring: seq<Frame>, ring': seq<Frame>, owner: map<int, Arrival>, read: int, write: int,
                    decode: Decoder, frameSize: nat, from: int, n: int)
    requires Slots(ring, owner, decode) && SafeSlots(s, ring, owner, read, write, frameSize)
    requires Retimed(ring, ring', from, n) && read - 1 <= write < from && read <= from
    requires OneSlotEach(read, n - read + 1)
    ensures SafeSlots(s, ring', owner, read, write, frameSize)
  {
    hide GapStamp, Slot;
    forall v, j | read <= v <= write && from <= j < n
      ensures Slot(v) != Slot(j)
    {
    }
    forall i | i in owner
      ensures ring'[i].rtptime == ring[i].rtptime
    {
      assert Slot(owner[i].number) == i;
    }
    forall j | j in s.gaps && read <= j <= write
      ensures ring'[Slot(j)].rtptime == ring[Slot(j)].rtptime
    {
    }
  }

  // A packet of the window, put in the slot of its number behind a gap that was filled for it.
  lemma TakeSafe(s: Session, ring: seq<Frame>, owner: map<int, Arrival>, read: int, write: int, decode: Decoder,
                 frameSize: nat, f: Frame, a: Arrival, from: int)
    requires Slots(ring, owner, decode) && Current(s, owner, read, write)
    requires SafeSlots(s, ring, owner, read, write, frameSize)
    requires read - 1 <= write < from && read <= a.number && f.rtptime == a.rtptime
    requires OneSlotEach(read, a.number - read + 1)
    requires forall j :: from <= j < a.number ==> ring[Slot(j)].rtptime == GapStamp(a, j, frameSize)
    ensures SafeSlots(Took(s, a, from), ring[Slot(a.number) := f], owner[Slot(a.number) := a],
                      read, Max(write, a.number), frameSize)
  {
    hide GapStamp, Slot;
    var n := a.number;
    var k := Slot(n);
    assert forall v :: read <= v <= Max(write, n) && v != n ==> Slot(v) != k;
    var s', ring', owner' := Took(s, a, from), ring[k := f], owner[k := a];
    forall i | i in owner'
      ensures 0 <= i < FRAMES && read <= owner'[i].number <= Max(write, n) && ring'[i].rtptime == owner'[i].rtptime
    {
    }
    forall b | b in s'.received && read <= b.number
      ensures Slot(b.number) in owner' && owner'[Slot(b.number)].number == b.number
    {
      if b != a {
        assert b.number <= write;
      }
    }
    forall j | j in s'.gaps && read <= j <= Max(write, n) && Slot(j) !in owner'
      ensures ring'[Slot(j)].rtptime == GapStamp(s'.gaps[j], j, frameSize)
    {
      assert j != n;
    }
  }

  // ---------------------------------------------------------------- lists of sessions

  function Last<T>(s: seq<T>): (x: T)
    requires s != []
  {
    s[|s| - 1]
  }

  function ReplaceLast<T>(s: seq<T>, x: T): (t: seq<T>)
    requires s != []
    ensures |t| == |s| && Last(t) == x
  {
    s[|s| - 1 := x]
  }

  lemma AllOkReplace(sessions: seq<Session>, s: Session, decode: Decoder, frameSize: nat)
    requires sessions != [] && AllOk(sessions, decode, frameSize) && SessionOk(s, decode, frameSize)
    ensures AllOk(ReplaceLast(sessions, s), decode, frameSize)
  {
  }

  lemma LastOk(sessions: seq<Session>, decode: Decoder, frameSize: nat)
    requires sessions != [] && AllOk(sessions, decode, frameSize)
    ensures SessionOk(Last(sessions), decode, frameSize)
  {
  }

  // The last session goes on: more of its numbers are disposed of.
  ghost predicate Continues(old': seq<Session>, new': seq<Session>)
  {
    && old' != [] && |new'| == |old'| && new'[..|old'| - 1] == old'[..|old'| - 1]
    && Last(new') == Last(old').(disposals := Last(new').disposals)
    && Last(old').disposals <= Last(new').disposals
  }

  // ---------------------------------------------------------------- one step of the whole

  // The history, the slots and the window, as one.
  ghost predicate Kept(sessions: seq<Session>, ring: seq<Frame>, owner: map<int, Arrival>, read: int, write: int,
                       decode: Decoder, frameSize: nat)
  {
    && sessions != [] && AllOk(sessions, decode, frameSize) && Slots(ring, owner, decode)
    && Current(Last(sessions), owner, read, write)
  }

  ghost predicate Told(sessions: seq<Session>, ring: seq<Frame>, owner: map<int, Arrival>, read: int, write: int,
                       frameSize: nat)
    requires |ring| == FRAMES
  {
    sessions != [] && Last(sessions).safe ==> SafeSlots(Last(sessions), ring, owner, read, write, frameSize)
  }

  lemma DisposeKept(sessions: seq<Session>, ring: seq<Frame>, owner: map<int, Arrival>, read: int, write: int,
                    decode: Decoder, frameSize: nat, d: Disposal)
    requires Kept(sessions, ring, owner, read, write, decode, frameSize)
    requires Told(sessions, ring, owner, read, write, frameSize) && read <= write
    requires Fits(Last(sessions), d, ring[Slot(read)], Holder(owner, Slot(read)), read)
    ensures var k := Slot(read);
            var sessions' := ReplaceLast(sessions, Disposed(Last(sessions), d));
            var ring' := ring[k := ring[k].(ready := false)];
            && Kept(sessions', ring', owner - {k}, read + 1, write, decode, frameSize)
            && Told(sessions', ring', owner - {k}, read + 1, write, frameSize)
  {
    var s := Last(sessions);
    LastOk(sessions, decode, frameSize);
    DisposeOk(s, ring, owner, read, write, decode, frameSize, d);
    DisposeSlots(ring, owner, decode, Slot(read));
    if s.safe {
      DisposeSafe(s, ring, owner, read, write, decode, frameSize, d);
    }
    AllOkReplace(sessions, Disposed(s, d), decode, frameSize);
    DisposeCurrent(s, owner, read, write, d, Slot(read));
    hide Slots, SafeSlots, Current, SessionOk, AllOk, Slot;
  }

  lemma DisposeCurrent(s: Session, owner: map<int, Arrival>, read: int, write: int, d: Disposal, k: int)
    requires Current(s, owner, read, write)
    ensures Current(Disposed(s, d), owner - {k}, read + 1, write)
  {
  }

  lemma TakeKept(sessions: seq<Session>, ring: seq<Frame>, owner: map<int, Arrival>, read: int, write: int,
                 decode: Decoder, frameSize: nat, f: Frame, a: Arrival, from: int)
    requires Kept(sessions, ring, owner, read, write, decode, frameSize)
    requires read - 1 <= write < from && read <= a.number && a.ahead == a.number - read
    requires f.ready && f.pcm == decode(a.payload) && f.rtptime == a.rtptime
    requires Last(sessions).safe && Apart(a) ==>
               && SafeSlots(Last(sessions), ring, owner, read, write, frameSize)
               && forall j :: from <= j < a.number ==> ring[Slot(j)].rtptime == GapStamp(a, j, frameSize)
    ensures var k := Slot(a.number);
            var sessions' := ReplaceLast(sessions, Took(Last(sessions), a, from));
            && Kept(sessions', ring[k := f], owner[k := a], read, Max(write, a.number), decode, frameSize)
            && Told(sessions', ring[k := f], owner[k := a], read, Max(write, a.number), frameSize)
  {
    var s := Last(sessions);
    LastOk(sessions, decode, frameSize);
    TakeSlots(ring, owner, decode, f, a);
    TakeOk(s, owner, read, write, decode, frameSize, a, from);
    TakeCurrent(s, owner, read, write, a, from);
    if s.safe && Apart(a) {
      TakeSafe(s, ring, owner, read, write, decode, frameSize, f, a, from);
    }
    AllOkReplace(sessions, Took(s, a, from), decode, frameSize);
    hide Slots, SafeSlots, Current, SessionOk, AllOk, Slot, GapStamp;
  }

  // A session begins with an idle ring.
  lemma StartKept(sessions: seq<Session>, ring: seq<Frame>, decode: Decoder, frameSize: nat, flush: int, start: int)
    requires AllOk(sessions, decode, frameSize) && |ring| == FRAMES
    requires forall i :: 0 <= i < FRAMES ==> !ring[i].ready
    requires flush == -1 || SeqOrder(flush, U16(start))
    ensures var sessions' := sessions + [Session(flush, start, {}, map[], true, [])];
            && Kept(sessions', ring, map[], start, start - 1, decode, frameSize)
            && Told(sessions', ring, map[], start, start - 1, frameSize)
  {
    hide Slot, SeqOrder, U16;
    assert SessionOk(Session(flush, start, {}, map[], true, []), decode, frameSize);
  }
}
