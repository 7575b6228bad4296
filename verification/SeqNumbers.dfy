/** components/raop/rtp.c: 16-bit sequence numbers that wrap, and the ring slots they index.
    Proofs speak of unbounded "virtual" numbers; the firmware keeps them modulo 65536. */
module SeqNumbers {
  import opened Memory

  const SEQ_MOD: int := 65536
  const U32_MOD: int := 0x1_0000_0000

  // BUFFER_FRAMES: (150 * RAOP_SAMPLE_RATE * 2) / (352 * 100) at 44100 Hz.
  const FRAMES: int := 375

  // 65536 mod FRAMES: how far two numbers sharing a slot can be when they straddle the wrap.
  const SAFE_WINDOW: int := 286

  function U16(x: int): (r: int)
    ensures 0 <= r < SEQ_MOD
  {
    x % SEQ_MOD
  }

  function U32(x: int): (r: int)
    ensures 0 <= r < U32_MOD
  {
    x % U32_MOD
  }

  // Conversion to int16_t.
  function S16(x: int): (r: int)
    ensures -32768 <= r < 32768 && U16(r) == U16(x)
  {
    if U16(x) < 32768 then U16(x) else U16(x) - SEQ_MOD
  }

  // seq_order: is b after a?
  predicate SeqOrder(a: int, b: int) {
    S16(b - a) > 0
  }

  // BUFIDX
  function Slot(v: int): (i: int)
    ensures 0 <= i < FRAMES
  {
    U16(v) % FRAMES
  }

  // Reducing an operand first does not change a sum or difference modulo 65536.
  lemma U16Sum(a: int, b: int)
    ensures U16(U16(a) + b) == U16(a + b)
    ensures U16(b - U16(a)) == U16(b - a)
  {
    var q := a / SEQ_MOD;
    assert a == q * SEQ_MOD + U16(a);
    SameRest(U16(a) + b, q);
    SameRest(b - U16(a), -q);
  }

  lemma SameRest(x: int, q: int)
    ensures U16(x + q * SEQ_MOD) == U16(x)
  {
    var p := x / SEQ_MOD;
    assert x == p * SEQ_MOD + U16(x);
    DivModUnique(x + q * SEQ_MOD, p + q, SEQ_MOD, U16(x));
  }

  lemma U16Near(a: int, b: int)
    requires -SEQ_MOD < a - b < SEQ_MOD
    ensures U16(a) == U16(b) <==> a == b
  {
  }

  lemma S16Small(x: int, y: int)
    requires U16(x) == U16(y) && -32768 <= y < 32768
    ensures S16(x) == y
  {
  }

  // seq_order decides the order of virtual numbers less than half the range apart.
  lemma OrderIsVirtual(a: int, b: int)
    requires -32768 <= b - a < 32768
    ensures S16(b - a) == b - a
    ensures SeqOrder(a, b) <==> a < b
    ensures S16(U16(b) - U16(a)) == b - a
    ensures SeqOrder(U16(a), U16(b)) <==> a < b
  {
    hide U16, S16;
    SameDifference(a, b);
    S16Small(b - a, b - a);
    S16Small(U16(b) - U16(a), b - a);
  }

  lemma SameDifference(a: int, b: int)
    ensures U16(U16(b) - U16(a)) == U16(b - a)
  {
    hide U16;
    U16Sum(b, -U16(a));
    U16Sum(a, b);
  }

  lemma U16Inside(first: int, a: int)
    requires first <= a && U16(first) + (a - first) < SEQ_MOD
    ensures U16(a) == U16(first) + (a - first)
  {
  }

  lemma U16Across(a: int, b: int)
    requires a <= b < a + SEQ_MOD && U16(a) + (b - a) >= SEQ_MOD
    ensures U16(b) == U16(a) + (b - a) - SEQ_MOD
  {
  }

  lemma SameRemainder(x: nat, d: nat)
    ensures (x + d) % FRAMES == x % FRAMES <==> d % FRAMES == 0
  {
    var r, s := x % FRAMES, d % FRAMES;
    assert x + d == (x / FRAMES + d / FRAMES) * FRAMES + (r + s);
    assert (x + d) % FRAMES == if r + s < FRAMES then r + s else r + s - FRAMES;
  }

  // Numbers that do not straddle 65535 -> 0 share a slot exactly at multiples of the ring size.
  lemma SlotsWithoutWrap(a: int, b: int)
    requires a <= b && U16(a) + (b - a) < SEQ_MOD
    ensures Slot(a) == Slot(b) <==> (b - a) % FRAMES == 0
  {
    hide U16;
    U16Inside(a, b);
    SameRemainder(U16(a), b - a);
  }

  // Numbers that straddle the wrap share a slot exactly at 286, 661, ...
  lemma SlotsAcrossWrap(a: int, b: int)
    requires a <= b < a + SEQ_MOD && U16(a) + (b - a) >= SEQ_MOD
    ensures Slot(a) == Slot(b) <==> (b - a) % FRAMES == SAFE_WINDOW
  {
    hide U16;
    U16Across(a, b);
    var d := SEQ_MOD - (b - a);
    SameRemainder(U16(b), d);
    RemainderOfRest(b - a);
  }

  lemma RemainderOfRest(e: nat)
    requires e < SEQ_MOD
    ensures (SEQ_MOD - e) % FRAMES == 0 <==> e % FRAMES == SAFE_WINDOW
  {
    var q, r := e / FRAMES, e % FRAMES;
    assert SEQ_MOD - e == (174 - q) * FRAMES + (SAFE_WINDOW - r);
    assert (SEQ_MOD - e) % FRAMES == if r <= SAFE_WINDOW then SAFE_WINDOW - r else SAFE_WINDOW - r + FRAMES;
  }

  lemma SlotsDistinct(a: int, b: int)
    requires a != b && -SAFE_WINDOW < b - a < SAFE_WINDOW
    ensures Slot(a) != Slot(b)
  {
    hide Slot, U16;
    var lo, hi := if a < b then a else b, if a < b then b else a;
    if U16(lo) + (hi - lo) < SEQ_MOD {
      SlotsWithoutWrap(lo, hi);
    } else {
      SlotsAcrossWrap(lo, hi);
    }
  }

  // The n numbers from `first` on have a slot each.
  ghost predicate OneSlotEach(first: int, n: int) {
    forall a, b :: first <= a < b < first + n ==> Slot(a) != Slot(b)
  }

  lemma WindowWithin(first: int, n: nat)
    requires n <= SAFE_WINDOW
    ensures OneSlotEach(first, n)
  {
    hide Slot;
    forall a, b | first <= a < b < first + n
      ensures Slot(a) != Slot(b)
    {
      SlotsDistinct(a, b);
    }
  }

  // Every window of n consecutive numbers has a slot for each exactly when n is at most 286.
  lemma SafeWindowExact(n: nat)
    ensures (forall first: int :: OneSlotEach(first, n)) <==> n <= SAFE_WINDOW
  {
    if n <= SAFE_WINDOW {
      forall first: int
        ensures OneSlotEach(first, n)
      {
        WindowWithin(first, n);
      }
    } else {
      var first := SEQ_MOD - SAFE_WINDOW;
      assert Slot(first) == Slot(first + SAFE_WINDOW);
      assert !OneSlotEach(first, n);
    }
  }

  // ... and a window that does not straddle the wrap may hold as many numbers as the ring.
  lemma WholeRingWithoutWrap(first: int, n: nat)
    requires U16(first) + n <= SEQ_MOD
    ensures OneSlotEach(first, n) <==> n <= FRAMES
  {
    hide Slot, U16;
    if n > FRAMES {
      SlotsWithoutWrap(first, first + FRAMES);
      assert Slot(first) == Slot(first + FRAMES);
    } else {
      forall a, b | first <= a < b < first + n
        ensures Slot(a) != Slot(b)
      {
        U16Inside(first, a);
        SlotsWithoutWrap(a, b);
      }
    }
  }

  // The ring tells the numbers of a window apart exactly when there are at most 286 of them, or at most
  // 375 on one side of the wrap.
  lemma WindowExact(first: int, n: nat)
    ensures OneSlotEach(first, n) <==> n <= SAFE_WINDOW || (n <= FRAMES && U16(first) + n <= SEQ_MOD)
  {
    if n <= SAFE_WINDOW {
      WindowWithin(first, n);
    } else if U16(first) + n <= SEQ_MOD {
      WholeRingWithoutWrap(first, n);
    } else {
      // the last number in front of the wrap with a partner behind it
      var turn := first - U16(first) + SEQ_MOD;
      var a := Max(first, turn - SAFE_WINDOW);
      AcrossPair(a, turn);
      assert Slot(a) == Slot(a + SAFE_WINDOW);
    }
  }

  lemma AcrossPair(a: int, turn: int)
    requires turn % SEQ_MOD == 0 && turn - SAFE_WINDOW <= a < turn
    ensures Slot(a) == Slot(a + SAFE_WINDOW)
  {
    hide Slot;
    SlotsAcrossWrap(a, a + SAFE_WINDOW);
  }

  // ---------------------------------------------------------------- resend requests

  // The test of rtp_request_resend; last - first is a plain int there.
  predicate ResendAccepted(first: int, last: int) {
    !(SeqOrder(last, first) || last - first > FRAMES / 2)
  }

  // The cap on the range asked for works exactly when the range does not straddle the wrap:
  // across it, any range of up to half the numbers is asked for.
  lemma ResendCap(first: int, last: int)
    requires 0 <= first < SEQ_MOD && 0 <= last < SEQ_MOD && 0 <= S16(last - first)
    ensures ResendAccepted(first, last) <==> last < first || S16(last - first) <= FRAMES / 2
    ensures last < first <==> first + S16(last - first) >= SEQ_MOD
  {
  }

  // ---------------------------------------------------------------- timestamps of gaps

  // The timestamp buffer_put_packet gives the missing number i when number seqno arrives.
  function GapTime(rtptime: int, seqno: int, i: int, frameSize: nat): int {
    U32(rtptime - (seqno - i) * frameSize)
  }

  // seqno - i is a plain int, so the timestamp is the interpolated one exactly when no wrap
  // lies between i and seqno (or the error, 65536 frames, is a whole number of clock turns).
  lemma GapTimeExact(rtptime: int, v: int, j: int, frameSize: nat)
    requires 0 <= v - j < SEQ_MOD
    ensures GapTime(rtptime, U16(v), U16(j), frameSize) == U32(rtptime - (v - j) * frameSize)
       <==> U16(j) <= U16(v) || frameSize % SEQ_MOD == 0
  {
    if U16(j) <= U16(v) {
      assert U16(v) - U16(j) == v - j;
    } else {
      var t := rtptime - (v - j) * frameSize;
      assert U16(v) - U16(j) == v - j - SEQ_MOD;
      assert rtptime - (U16(v) - U16(j)) * frameSize == t + SEQ_MOD * frameSize by {
        assert (v - j - SEQ_MOD) * frameSize == (v - j) * frameSize - SEQ_MOD * frameSize;
      }
      TurnsOfTheClock(t, frameSize);
    }
  }

  lemma TurnsOfTheClock(t: int, n: nat)
    ensures U32(t + SEQ_MOD * n) == U32(t) <==> n % SEQ_MOD == 0
  {
  }
}
