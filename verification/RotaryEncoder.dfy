/** components/services/rotary_encoder.c: the quadrature decoder. Each interrupt looks the two pins
    up in a state table; the upper bits of the entry are the event. */
module RotaryEncoder {

  const DIR_CW: int := 0x10
  const DIR_CCW: int := 0x20

  const R_START: int := 0

  // Half-step states.
  const H_CCW_BEGIN: int := 1
  const H_CW_BEGIN: int := 2
  const H_START_M: int := 3
  const H_CW_BEGIN_M: int := 4
  const H_CCW_BEGIN_M: int := 5

  // Full-step states.
  const F_CW_FINAL: int := 1
  const F_CW_BEGIN: int := 2
  const F_CW_NEXT: int := 3
  const F_CCW_BEGIN: int := 4
  const F_CCW_FINAL: int := 5
  const F_CCW_NEXT: int := 6

  datatype Table = Half | Full

  // _ttable_half and _ttable_full: rows by state, columns by the pins BA. C fills the row the
  // half table leaves out with zeros.
  function Row(t: Table, state: int): (row: seq<int>)
    requires 0 <= state < 7
    ensures |row| == 4
  {
    if t.Half? then
      if state == R_START then [H_START_M, H_CW_BEGIN, H_CCW_BEGIN, R_START]
      else if state == H_CCW_BEGIN then [H_START_M + DIR_CCW, R_START, H_CCW_BEGIN, R_START]
      else if state == H_CW_BEGIN then [H_START_M + DIR_CW, H_CW_BEGIN, R_START, R_START]
      else if state == H_START_M then [H_START_M, H_CCW_BEGIN_M, H_CW_BEGIN_M, R_START]
      else if state == H_CW_BEGIN_M then [H_START_M, H_START_M, H_CW_BEGIN_M, R_START + DIR_CW]
      else if state == H_CCW_BEGIN_M then [H_START_M, H_CCW_BEGIN_M, H_START_M, R_START + DIR_CCW]
      else [0, 0, 0, 0]
    else
      if state == R_START then [R_START, F_CW_BEGIN, F_CCW_BEGIN, R_START]
      else if state == F_CW_FINAL then [F_CW_NEXT, R_START, F_CW_FINAL, R_START + DIR_CW]
      else if state == F_CW_BEGIN then [F_CW_NEXT, F_CW_BEGIN, R_START, R_START]
      else if state == F_CW_NEXT then [F_CW_NEXT, F_CW_BEGIN, F_CW_FINAL, R_START]
      else if state == F_CCW_BEGIN then [F_CCW_NEXT, R_START, F_CCW_BEGIN, R_START]
      else if state == F_CCW_FINAL then [F_CCW_NEXT, F_CCW_FINAL, R_START, R_START + DIR_CCW]
      else [F_CCW_NEXT, F_CCW_FINAL, F_CCW_BEGIN, R_START]
  }

  datatype Direction = NotSet | Clockwise | CounterClockwise

  // What the interrupt handler keeps; entry is table_state with its event bits.
  datatype Dial = Dial(entry: int, position: int, direction: Direction)

  type Pins = p: int | 0 <= p < 4

  predicate Sound(d: Dial) {
    0 <= d.entry < 0x30 && d.entry % 16 < 7
  }

  function Step(t: Table, d: Dial, pins: Pins): (d': Dial)
    requires Sound(d)
    ensures Sound(d')
  {
    var entry := Row(t, d.entry % 16)[pins];
    if entry / 16 * 16 == DIR_CW then Dial(entry, d.position + 1, Clockwise)
    else if entry / 16 * 16 == DIR_CCW then Dial(entry, d.position - 1, CounterClockwise)
    else d.(entry := entry)
  }

  datatype Event = NoEvent | Moved(position: int, direction: Direction)

  class Encoder {
    const table: Table
    var tableState: int
    var position: int
    var direction: Direction
    var queue: Event

    function View(): Dial
      reads this
    {
      Dial(tableState, position, direction)
    }

    // rotary_encoder_init and the flip to half steps.
    constructor (table: Table)
      ensures this.table == table && View() == Dial(R_START, 0, NotSet) && queue == NoEvent
    {
      this.table := table;
      tableState, position, direction, queue := R_START, 0, NotSet, NoEvent;
    }

    // _process
    method Process(pins: Pins) returns (event: int)
      requires Sound(View())
      modifies this`tableState
      ensures tableState == Row(table, old(tableState) % 16)[pins]
      ensures event == tableState / 16 % 4 * 16
    {
      tableState := Row(table, tableState % 16)[pins];
      event := tableState / 16 % 4 * 16;
    }

    // _isr_rotenc: the queue holds the last event only.
    method Isr(pins: Pins)
      requires Sound(View())
      modifies this`tableState, this`position, this`direction, this`queue
      ensures View() == Step(table, old(View()), pins)
      ensures queue == if position != old(position) then Moved(position, direction) else old(queue)
    {
      var event := Process(pins);
      var send := false;
      if event == DIR_CW {
        position := position + 1;
        direction := Clockwise;
        send := true;
      } else if event == DIR_CCW {
        position := position - 1;
        direction := CounterClockwise;
        send := true;
      }
      if send {
        queue := Moved(position, direction);
      }
    }

    // A run of interrupts.
    method Follow(samples: seq<Pins>)
      requires Sound(View())
      modifies this
      ensures View() == Feed(table, old(View()), samples)
    {
      var i := 0;
      assert samples[..0] == [];
      while i < |samples|
        invariant 0 <= i <= |samples|
        invariant View() == Feed(table, old(View()), samples[..i])
      {
        assert samples[..i + 1] == samples[..i] + [samples[i]];
        Isr(samples[i]);
        i := i + 1;
      }
      assert samples[..i] == samples;
    }
  }

  function Feed(t: Table, d: Dial, samples: seq<Pins>): (d': Dial)
    requires Sound(d)
    ensures Sound(d')
  {
    if samples == [] then d
    else Step(t, Feed(t, d, samples[..|samples| - 1]), samples[|samples| - 1])
  }

  // ---------------------------------------------------------------- phases

  // The pins BA a quarter turn apart: 11, 01, 00, 10, and again.
  function PinsAt(phase: int): Pins {
    var q := phase % 4;
    if q == 0 then 3 else if q == 1 then 1 else if q == 2 then 0 else 2
  }

  // The shaft moves at most one Gray step between samples, back and forth as it bounces.
  ghost predicate Smooth(from: int, phases: seq<int>)
    decreases |phases|
  {
    phases == [] || (-1 <= phases[0] - from <= 1 && Smooth(phases[0], phases[1..]))
  }

  function Samples(phases: seq<int>): (s: seq<Pins>)
    ensures |s| == |phases|
  {
    seq(|phases|, i requires 0 <= i < |phases| => PinsAt(phases[i]))
  }

  // Quarter turns a counted position stands for.
  function Quarters(t: Table): int {
    if t.Half? then 2 else 4
  }

  // The table state that the lead of the shaft over the counted position decides; for half
  // steps also whether the position is at pins 11 or 00.
  function StateFor(t: Table, lead: int, position: int): int {
    if t.Half? then
      if position % 2 == 0 then
        if lead == 0 then R_START else if lead == 1 then H_CW_BEGIN else H_CCW_BEGIN
      else
        if lead == 0 then H_START_M else if lead == 1 then H_CW_BEGIN_M else H_CCW_BEGIN_M
    else
      if lead == 0 then R_START
      else if lead == 1 then F_CW_BEGIN
      else if lead == 2 then F_CW_NEXT
      else if lead == 3 then F_CW_FINAL
      else if lead == -1 then F_CCW_BEGIN
      else if lead == -2 then F_CCW_NEXT
      else F_CCW_FINAL
  }

  // The count is less than one step off the shaft and the state says by how much.
  ghost predicate Tracks(t: Table, d: Dial, base: int, phase: int) {
    var lead := phase - Quarters(t) * (d.position - base);
    && -Quarters(t) < lead < Quarters(t)
    && d.entry % 16 == StateFor(t, lead, d.position - base)
  }

  lemma TracksStep(t: Table, d: Dial, base: int, phase: int, next: int)
    requires Sound(d) && Tracks(t, d, base, phase) && -1 <= next - phase <= 1
    ensures Tracks(t, Step(t, d, PinsAt(next)), base, next)
  {
    if t.Half? {
      HalfStep(d, base, phase, next);
    } else {
      FullStep(d, base, phase, next);
    }
  }

  lemma FullStep(d: Dial, base: int, phase: int, next: int)
    requires Sound(d) && Tracks(Full, d, base, phase) && -1 <= next - phase <= 1
    ensures Tracks(Full, Step(Full, d, PinsAt(next)), base, next)
  {
    var steps := d.position - base;
    SamePins(Full, next, steps);
    FullEntry(phase - 4 * steps, next - phase);
    hide PinsAt, Row;
  }

  lemma HalfStep(d: Dial, base: int, phase: int, next: int)
    requires Sound(d) && Tracks(Half, d, base, phase) && -1 <= next - phase <= 1
    ensures Tracks(Half, Step(Half, d, PinsAt(next)), base, next)
  {
    var steps := d.position - base;
    var lead := phase - 2 * steps;
    SamePins(Half, next, steps);
    HalfEntry(lead, steps % 2, next - phase);
    ParityOnly(lead, steps);
    ParityOnly(lead + next - phase, steps);
    ParityOnly(0, steps);
    hide PinsAt, Row, StateFor;
  }

  lemma ParityOnly(lead: int, steps: int)
    ensures StateFor(Half, lead, steps) == StateFor(Half, lead, steps % 2)
    ensures StateFor(Half, lead, steps + 1) == StateFor(Half, lead, steps % 2 + 1)
    ensures StateFor(Half, lead, steps - 1) == StateFor(Half, lead, steps % 2 + 1)
    ensures 0 <= StateFor(Half, lead, steps) < 6
  {
  }

  // The pins depend on the lead, and for half steps on which rest the position is at.
  lemma SamePins(t: Table, phase: int, steps: int)
    ensures PinsAt(phase) ==
            PinsAt(phase - Quarters(t) * steps + if t.Half? then 2 * (steps % 2) else 0)
  {
    var turns := if t.Half? then steps / 2 else steps;
    assert phase == 4 * turns + (phase - Quarters(t) * steps + if t.Half? then 2 * (steps % 2) else 0);
  }

  // The full table's entry one move on from a lead.
  lemma FullEntry(lead: int, move: int)
    requires -4 < lead < 4 && -1 <= move <= 1
    ensures Row(Full, StateFor(Full, lead, 0))[PinsAt(lead + move)] ==
            if lead + move == 4 then R_START + DIR_CW
            else if lead + move == -4 then R_START + DIR_CCW
            else StateFor(Full, lead + move, 0)
  {
  }

  // The half table's, at the rest with both pins up (parity 0) or down (parity 1).
  lemma HalfEntry(lead: int, parity: int, move: int)
    requires -2 < lead < 2 && 0 <= parity <= 1 && -1 <= move <= 1
    ensures Row(Half, StateFor(Half, lead, parity))[PinsAt(lead + move + 2 * parity)] ==
            if lead + move == 2 then StateFor(Half, 0, parity + 1) + DIR_CW
            else if lead + move == -2 then StateFor(Half, 0, parity + 1) + DIR_CCW
            else StateFor(Half, lead + move, parity)
  {
  }

  // Both pins at once tell no direction: nothing is counted, and the table starts again.
  lemma BothPins(lead: int, parity: int)
    requires 0 <= parity <= 1
    ensures -4 < lead < 4 ==> Row(Full, StateFor(Full, lead, 0))[PinsAt(lead + 2)] == R_START
    ensures -2 < lead < 2 ==>
              Row(Half, StateFor(Half, lead, parity))[PinsAt(lead + 2 + 2 * parity)]
              == StateFor(Half, 0, if lead == 0 then parity + 1 else parity)
  {
  }

  // From rest, over every bouncing run, the count stays within a step of the shaft.
  lemma {:induction false} RunTracks(t: Table, d: Dial, base: int, from: int, phases: seq<int>)
    requires Sound(d) && Tracks(t, d, base, from) && Smooth(from, phases)
    ensures Tracks(t, Feed(t, d, Samples(phases)), base, if phases == [] then from else phases[|phases| - 1])
    decreases |phases|
  {
    if phases != [] {
      var n := |phases| - 1;
      SmoothPrefix(from, phases);
      RunTracks(t, d, base, from, phases[..n]);
      assert Samples(phases)[..n] == Samples(phases[..n]);
      TracksStep(t, Feed(t, d, Samples(phases[..n])), base, if n == 0 then from else phases[n - 1], phases[n]);
    }
  }

  lemma {:induction false} SmoothPrefix(from: int, phases: seq<int>)
    requires phases != [] && Smooth(from, phases)
    ensures var n := |phases| - 1;
            && Smooth(from, phases[..n])
            && -1 <= phases[n] - (if n == 0 then from else phases[n - 1]) <= 1
    decreases |phases|
  {
    if |phases| > 1 {
      SmoothPrefix(phases[0], phases[1..]);
      assert phases[..|phases| - 1][1..] == phases[1..][..|phases| - 2];
    }
  }

  // From any state, after any garbage, one sample with both pins up restarts the table.
  lemma Resynchronises(t: Table, d: Dial, garbage: seq<Pins>)
    requires Sound(d)
    ensures var d' := Feed(t, d, garbage + [3 as Pins]);
            d'.entry % 16 == R_START && Tracks(t, d', d'.position, 0)
  {
    assert (garbage + [3 as Pins])[..|garbage|] == garbage;
  }

  // Whenever the shaft rests with both pins up, the full-step count is exact, and the half-step
  // count too at both rests.
  lemma ExactAtRest(t: Table, d: Dial, base: int, phase: int)
    requires Tracks(t, d, base, phase)
    ensures phase % Quarters(t) == 0 ==> phase == Quarters(t) * (d.position - base)
  {
    var lead := phase - Quarters(t) * (d.position - base);
    assert t.Half? && phase % 2 == 0 ==> lead % 2 == 0;
    assert t.Full? && phase % 4 == 0 ==> lead % 4 == 0;
  }

  // The direction kept is that of the last count.
  lemma DirectionIs(t: Table, d: Dial, pins: Pins)
    requires Sound(d)
    ensures var d' := Step(t, d, pins);
            && -1 <= d'.position - d.position <= 1
            && d'.direction == (if d'.position > d.position then Clockwise
                                else if d'.position < d.position then CounterClockwise
                                else d.direction)
  {
  }

  // From rest, pins BA going 01, 00, 10, 11 are one step up, clockwise; the other way round one step down. With
  // half steps each half of them is one.
  lemma OneTurn()
    ensures var d := Dial(R_START, 0, NotSet);
            && Feed(Full, d, [1, 0, 2, 3]) == Dial(DIR_CW, 1, Clockwise)
            && Feed(Full, d, [2, 0, 1, 3]) == Dial(DIR_CCW, -1, CounterClockwise)
            && Feed(Half, d, [1, 0]) == Dial(H_START_M + DIR_CW, 1, Clockwise)
            && Feed(Half, d, [2, 0]) == Dial(H_START_M + DIR_CCW, -1, CounterClockwise)
  {
    hide Step, Feed, Row;
    var d := Dial(R_START, 0, NotSet);
    FeedFour(Full, d, 1, 0, 2, 3);
    FullUp();
    FeedFour(Full, d, 2, 0, 1, 3);
    FullDown();
    FeedFour(Half, d, 1, 0, 2, 3);
    FeedFour(Half, d, 2, 0, 1, 3);
    HalfBoth();
  }

  lemma FullUp()
    ensures Step(Full, Dial(R_START, 0, NotSet), 1) == Dial(F_CW_BEGIN, 0, NotSet)
    ensures Step(Full, Dial(F_CW_BEGIN, 0, NotSet), 0) == Dial(F_CW_NEXT, 0, NotSet)
    ensures Step(Full, Dial(F_CW_NEXT, 0, NotSet), 2) == Dial(F_CW_FINAL, 0, NotSet)
    ensures Step(Full, Dial(F_CW_FINAL, 0, NotSet), 3) == Dial(DIR_CW, 1, Clockwise)
  {
  }

  lemma FullDown()
    ensures Step(Full, Dial(R_START, 0, NotSet), 2) == Dial(F_CCW_BEGIN, 0, NotSet)
    ensures Step(Full, Dial(F_CCW_BEGIN, 0, NotSet), 0) == Dial(F_CCW_NEXT, 0, NotSet)
    ensures Step(Full, Dial(F_CCW_NEXT, 0, NotSet), 1) == Dial(F_CCW_FINAL, 0, NotSet)
    ensures Step(Full, Dial(F_CCW_FINAL, 0, NotSet), 3) == Dial(DIR_CCW, -1, CounterClockwise)
  {
  }

  lemma HalfBoth()
    ensures Step(Half, Dial(R_START, 0, NotSet), 1) == Dial(H_CW_BEGIN, 0, NotSet)
    ensures Step(Half, Dial(H_CW_BEGIN, 0, NotSet), 0) == Dial(H_START_M + DIR_CW, 1, Clockwise)
    ensures Step(Half, Dial(R_START, 0, NotSet), 2) == Dial(H_CCW_BEGIN, 0, NotSet)
    ensures Step(Half, Dial(H_CCW_BEGIN, 0, NotSet), 0) == Dial(H_START_M + DIR_CCW, -1, CounterClockwise)
  {
  }

  lemma FeedFour(t: Table, d: Dial, a: Pins, b: Pins, c: Pins, e: Pins)
    requires Sound(d)
    ensures Feed(t, d, [a, b]) == Step(t, Step(t, d, a), b)
    ensures Feed(t, d, [a, b, c, e]) == Step(t, Step(t, Step(t, Step(t, d, a), b), c), e)
  {
    hide Row;
    assert [a, b, c, e][..3] == [a, b, c] && [a, b, c][..2] == [a, b] && [a, b][..1] == [a] && [a][..0] == [];
    assert Feed(t, d, [a]) == Step(t, d, a);
    assert Feed(t, d, [a, b]) == Step(t, Step(t, d, a), b);
    assert Feed(t, d, [a, b, c]) == Step(t, Feed(t, d, [a, b]), c);
  }
}
