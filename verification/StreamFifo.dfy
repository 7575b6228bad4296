/** components/squeezelite/buffer.c: the byte FIFO between producers and decoders.
    Pointers are offsets from the start of the allocated block. */
module StreamFifo {
  import opened Memory

  // How _buf_unwrap handles one call.
  datatype Branch = Enough | Slide | Direct | Scratch | Halve

  // The ring pointers.
  datatype Ends = Ends(readp: nat, writep: nat)

  // The allocator's answers while _buf_unwrap runs: to the recursive call numbered c (children 2c and
  // 2c + 1) asking for n bytes. Nobody can be given MAX_BLOCK.
  type Grant = (nat, nat) -> bool

  ghost predicate Bounded(grant: Grant) {
    forall c: nat, n: nat :: grant(c, n) ==> n < MAX_BLOCK
  }

  // The FIFO a caller sees: its bytes, and the sizes that bound it.
  datatype Fifo = Fifo(items: seq<byte>, size: nat, baseSize: nat)

  class StreamBuffer {
    const data: array<byte>
    var readp: nat
    var writep: nat
    var wrap: nat
    var size: nat
    var baseSize: nat

    ghost predicate Shape()
      reads this
    {
      && 0 < size <= baseSize <= data.Length < MAX_BLOCK
      && wrap == size
      && readp < size
      && writep <= size
    }

    // One byte always stays free; only a write pointer left on the wrap could break that.
    ghost predicate Valid()
      reads this
    {
      Shape() && !(readp == 0 && writep == size)
    }

    // The state the direct unwrap can leave: the write pointer rests on the wrap.
    predicate Parked()
      reads this
    {
      writep == wrap
    }

    ghost function Contents(): (s: seq<byte>)
      requires Shape()
      reads this, data
    {
      Ring(data[..], readp, writep, wrap)
    }

    ghost function View(): Fifo
      requires Shape()
      reads this, data
    {
      Fifo(Contents(), size, baseSize)
    }

    // The next n storage bytes a producer fills from the write pointer on.
    ghost function Ahead(n: nat): (s: seq<byte>)
      requires Valid() && n <= Space()
      reads this, data
      ensures |s| == n
    {
      Stretch(data[..], writep, wrap, n)
    }

    constructor (n: nat)
      requires 0 < n < MAX_BLOCK
      ensures Valid() && fresh(data) && !Parked()
      ensures View() == Fifo([], n, n) && readp == writep == 0
    {
      data := new byte[n];
      readp, writep, wrap := 0, 0, n;
      size, baseSize := n, n;
    }

    function Used(): (n: nat)
      requires Shape()
      reads this, data
      ensures n == |Contents()|
      ensures Valid() ==> n < size
    {
      if writep >= readp then writep - readp else size - (readp - writep)
    }

    function Space(): (n: nat)
      requires Valid()
      reads this, data
      ensures |Contents()| + n == size - 1
    {
      size - Used() - 1
    }

    function ContRead(): (n: nat)
      requires Shape()
      reads this, data
      ensures n <= |Contents()| && readp + n <= wrap && Contents()[..n] == data[readp..readp + n]
      ensures n < |Contents()| ==> readp + n == wrap
    {
      if writep >= readp then writep - readp else wrap - readp
    }

    function ContWrite(): (n: nat)
      requires Shape()
      reads this
      ensures writep + n == if writep < readp then readp else wrap
      ensures n == 0 <==> Parked()
    {
      if writep >= readp then wrap - writep else readp - writep
    }

    // What one pass of the stream thread or of a sink may store: nothing when the buffer is
    // full, but also when it is parked, however empty it is.
    function Room(): (n: nat)
      requires Valid()
      reads this, data
      ensures n <= Space() && n <= ContWrite() && (n == Space() || n == ContWrite())
      ensures n == 0 <==> Space() == 0 || Parked()
    {
      Min(Space(), ContWrite())
    }

    // Reading drops bytes from the front, except that draining a parked buffer to the
    // last byte turns it into a full one whose bytes were never written.
    method IncReadp(n: nat)
      requires Valid() && n <= Used()
      modifies this`readp
      ensures Shape() && Parked() == old(Parked())
      ensures readp == At(old(readp), wrap, n)
      ensures Valid() <==> !(old(Parked()) && n == old(Used()))
      ensures Valid() ==> Contents() == old(Contents())[n..]
      ensures !Valid() ==> Used() == size && Contents() == data[..size]
    {
      readp := readp + n;
      if readp >= wrap {
        readp := readp - size;
      }
    }

    // Writing appends the bytes the producer stored ahead of the write pointer.
    method IncWritep(n: nat)
      requires Valid() && n <= Space()
      modifies this`writep
      ensures Valid() && !Parked()
      ensures writep == At(old(writep), wrap, n)
      ensures Contents() == old(Contents()) + old(Ahead(n))
    {
      writep := writep + n;
      if writep >= wrap {
        writep := writep - size;
      }
    }

    // One producer step: copy at the write pointer, then advance it.
    method Append(bytes: seq<byte>)
      requires Valid() && |bytes| <= Space() && |bytes| <= ContWrite()
      modifies this`writep, data
      ensures Valid() && !Parked()
      ensures writep == At(old(writep), wrap, |bytes|)
      ensures Contents() == old(Contents()) + bytes
    {
      ghost var before := Contents();
      Store(data, writep, bytes);
      assert Contents() == before;
      assert Ahead(|bytes|) == bytes;
      IncWritep(|bytes|);
    }

    // A producer with more bytes than reach the wrap needs two steps.
    method Write(bytes: seq<byte>)
      requires Valid() && !Parked() && |bytes| <= Space()
      modifies this`writep, data
      ensures Valid() && !Parked()
      ensures Contents() == old(Contents()) + bytes
    {
      hide Ring;
      var n := Min(|bytes|, ContWrite());
      Append(bytes[..n]);
      assert |bytes[n..]| <= ContWrite();
      Append(bytes[n..]);
      assert bytes[..n] + bytes[n..] == bytes;
    }

    method Flush()
      requires Shape()
      modifies this`readp, this`writep
      ensures Valid() && !Parked() && Contents() == []
    {
      readp := 0;
      writep := 0;
    }

    // Trims the buffer to whole frames of mod bytes and empties it. A buffer smaller than one frame is left
    // with no bytes at all, and is no ring any more.
    method Adjust(mod: nat)
      requires Shape() && 0 < mod
      modifies this
      ensures size == baseSize == wrap == old(size) / mod * mod && readp == writep == 0
      ensures Valid() <==> mod <= old(size)
      ensures mod <= old(size) ==> !Parked() && Contents() == [] && size % mod == 0 && old(size) - mod < size
      ensures mod > old(size) ==> size == 0
    {
      hide Ring;
      if mod <= size {
        WholeFrames(size, mod);
      } else {
        NoFrames(size, mod);
      }
      baseSize := size / mod * mod;
      readp := 0;
      writep := 0;
      wrap := baseSize;
      size := baseSize;
    }

    // A limit empties the buffer; removing it keeps the bytes exactly when they do not
    // wrap, because the old bytes before and after the wrap end up apart.
    method Limit(limit: nat) returns (cut: nat)
      requires Valid() && limit <= baseSize
      modifies this
      ensures baseSize == old(baseSize) && cut == baseSize - size
      ensures Valid()
      ensures size == if limit > 0 then limit else baseSize
      ensures limit > 0 ==> Contents() == []
      ensures limit > 0 || !old(Parked()) ==> !Parked()
      ensures limit == 0 ==>
                (Contents() == old(Contents()) <==> old(writep >= readp) || old(size) == baseSize)
    {
      if limit > 0 {
        size := limit;
        readp := 0;
        writep := 0;
      } else {
        ghost var before := Contents();
        size := baseSize;
        assert writep >= readp ==> data[readp..writep] == before;
        assert writep < readp ==> |data[readp..size]| + |data[..writep]| == |before| + (size - wrap);
      }
      wrap := size;
      cut := baseSize - size;
    }

    // ---------------------------------------------------------------- unwrapping

    // by in _buf_unwrap: how far the front must move down.
    function Shift(cont: nat): int
      requires Shape()
      reads this
    {
      ShiftOf(Ends(readp, writep), size, cont)
    }

    // size in _buf_unwrap is a size_t, so a negative overlap wraps to a huge request.
    function Overlap(cont: nat): (n: nat)
      requires Shape() && writep < readp && 0 < Shift(cont) && cont < size
      reads this
      ensures n == 0 <==> Shift(cont) == readp - writep
      ensures n < MAX_BLOCK <==> readp - writep <= Shift(cont)
      ensures n < MAX_BLOCK ==> n == Shift(cont) - (readp - writep)
    {
      OverlapOf(Ends(readp, writep), size, cont)
    }

    // Bytes the scratch branch slides down behind the wrap, len - by - size in the source: memmove is
    // defined for it only when it is not negative.
    function Tail(cont: nat): (n: int)
      requires Shape()
      reads this
      ensures n >= 0 <==> 2 * cont <= size + (wrap - readp)
    {
      TailOf(Ends(readp, writep), size, cont)
    }

    // By how much the shift exceeds the gap between the pointers of a wrapped buffer.
    function Gap(cont: nat): int
      reads this
    {
      cont - (wrap - readp) - (readp - writep)
    }

    function BranchFor(cont: nat, call: nat, grant: Grant): Branch
      requires Shape()
      reads this
    {
      BranchOf(Ends(readp, writep), size, cont, call, grant)
    }

    // Whether memmove is asked for a negative length, which C leaves undefined.
    predicate Undefined(cont: nat, call: nat, grant: Grant)
      requires Shape()
      reads this
    {
      UndefinedAt(Ends(readp, writep), size, cont, call, grant)
    }

    // _buf_unwrap. A call the source leaves undefined is not followed. Otherwise the FIFO's bytes survive
    // every branch, and the pointers end where Straightened says; the front becomes contiguous on every
    // branch but Halve, where it never does.
    method Unwrap(cont: nat, call: nat, grant: Grant) returns (defined: bool)
      requires Valid() && Bounded(grant)
      modifies this`readp, this`writep, data
      ensures defined <==> !old(Undefined(cont, call, grant))
      ensures Valid() && Contents() == old(Contents())
      ensures !defined ==> readp == old(readp) && writep == old(writep)
      ensures defined ==> Ends(readp, writep) == Straightened(old(Ends(readp, writep)), size, cont, call, grant)
      ensures defined ==>
              match old(BranchFor(cont, call, grant))
              case Enough => readp == old(readp) && writep == old(writep) && data[..] == old(data[..])
              case Slide => wrap - readp == cont && !Parked() && writep == old(writep) - old(Shift(cont))
              case Direct => wrap - readp == cont && (Parked() <==> old(writep) == old(Shift(cont)))
              case Scratch => wrap - readp == cont && !Parked()
              case Halve => wrap - readp < cont
      ensures defined && old(wrap - readp) < cont < size ==>
                (wrap - readp == cont <==>
                   old(writep >= readp) || old(Gap(cont)) == 0
                   || (old(Gap(cont)) > 0 && grant(call, old(Gap(cont)))))
      decreases cont, 2
    {
      hide Ring, Straightened, OverlapOf, TailOf;
      defined := true;
      if !Undefined(cont, call, grant) {
        StraightenedIs(Ends(readp, writep), size, cont, call, grant);
        StraightenedRoom(Ends(readp, writep), size, cont, call, grant);
      }
      if writep < readp && 0 < Shift(cont) && cont < size {
        GapOverlap(Ends(readp, writep), size, cont);
      }
      var shift := Shift(cont);
      if shift <= 0 || cont >= size {
        return;
      }
      if writep >= readp {
        SlideDown(data, readp, writep, wrap, shift);
        readp := readp - shift;
        writep := writep - shift;
        return;
      }
      defined := UnwrapWrapped(cont, call, grant);
    }

    // When the bytes wrap.
    method UnwrapWrapped(cont: nat, call: nat, grant: Grant) returns (defined: bool)
      requires Valid() && Bounded(grant) && writep < readp && 0 < Shift(cont) && cont < size
      modifies this`readp, this`writep, data
      ensures defined <==> !old(Undefined(cont, call, grant))
      ensures Valid() && Contents() == old(Contents())
      ensures !defined ==> readp == old(readp) && writep == old(writep)
      ensures defined ==> Ends(readp, writep) == Straightened(old(Ends(readp, writep)), size, cont, call, grant)
      decreases cont, 1
    {
      hide Ring, Straightened, OverlapOf, TailOf;
      defined := true;
      var shift, overlap := Shift(cont), Overlap(cont);
      if !Undefined(cont, call, grant) {
        StraightenedIs(Ends(readp, writep), size, cont, call, grant);
      }
      if overlap == 0 {
        var w := MoveWrapped(data, readp, writep, wrap, shift);
        readp := readp - shift;
        writep := w;
        return;
      }
      if grant(call, overlap) {
        if Tail(cont) < 0 {
          return false;
        }
        MoveThroughScratch(data, readp, writep, wrap, shift, overlap);
        readp := readp - shift;
        writep := writep - shift;
      } else {
        UnwrapHalves(cont, call, grant);
      }
    }

    // Without memory, two calls for half of it each; they always meet the condition of the scratch
    // branch.
    method UnwrapHalves(cont: nat, call: nat, grant: Grant)
      requires Valid() && Bounded(grant) && BranchFor(cont, call, grant) == Halve
      modifies this`readp, this`writep, data
      ensures Valid() && Contents() == old(Contents()) && wrap - readp < cont
      ensures Ends(readp, writep) == Straightened(old(Ends(readp, writep)), size, cont, call, grant)
      decreases cont, 0
    {
      hide Ring, Straightened, UndefinedAt, BranchOf, TailOf, OverlapOf;
      ghost var p := Ends(readp, writep);
      StraightenedHalves(p, size, cont, call, grant);
      StraightenedRoom(p, size, cont, call, grant);
      var first := Unwrap(cont / 2, 2 * call, grant);
      var second := Unwrap(cont - cont / 2, 2 * call + 1, grant);
    }

    // _buf_unwrap with the overlap signed, as the comment in it means. Any gap as wide as the shift
    // is then moved directly, and only a refused allocation leaves the front in two pieces.
    method UnwrapAsMeant(cont: nat, call: nat, grant: Grant) returns (defined: bool)
      requires Valid()
      requires Bounded(grant)
      modifies this`readp, this`writep, data
      ensures defined <==>
              !(old(NeedsScratch(cont)) && grant(call, old(Shift(cont) - (readp - writep))) && old(Tail(cont)) < 0)
      ensures Valid() && Contents() == old(Contents())
      ensures old(Shift(cont)) <= 0 || cont >= size ==> readp == old(readp) && writep == old(writep)
      ensures defined && 0 < old(Shift(cont)) && cont < size ==>
                if old(NeedsScratch(cont)) && !grant(call, old(Shift(cont) - (readp - writep))) then wrap - readp < cont
                else wrap - readp == cont
      decreases cont, 1
    {
      hide Ring;
      defined := true;
      var shift := Shift(cont);
      if shift <= 0 || cont >= size {
        return;
      }
      if writep >= readp {
        SlideDown(data, readp, writep, wrap, shift);
        readp := readp - shift;
        writep := writep - shift;
        return;
      }
      if shift - (readp - writep) <= 0 {
        var w := MoveWrapped(data, readp, writep, wrap, shift);
        readp := readp - shift;
        writep := w;
        return;
      }
      var overlap := shift - (readp - writep);
      if grant(call, overlap) {
        if Tail(cont) < 0 {
          return false;
        }
        MoveThroughScratch(data, readp, writep, wrap, shift, overlap);
        readp := readp - shift;
        writep := writep - shift;
      } else {
        HalvesAsMeant(cont, call, grant);
      }
    }

    method HalvesAsMeant(cont: nat, call: nat, grant: Grant)
      requires Valid() && NeedsScratch(cont)
      requires Bounded(grant)
      modifies this`readp, this`writep, data
      ensures Valid() && Contents() == old(Contents()) && wrap - readp < cont
      decreases cont, 0
    {
      hide Ring;
      var first := UnwrapAsMeant(cont / 2, 2 * call, grant);
      var second := UnwrapAsMeant(cont - cont / 2, 2 * call + 1, grant);
      assert first && second;
    }

    // The bytes wrap, and the gap between the pointers is narrower than the shift.
    predicate NeedsScratch(cont: nat)
      requires Shape()
      reads this
    {
      writep < readp && 0 < Shift(cont) && cont < size && readp - writep < Shift(cont)
    }
  }

  // ---------------------------------------------------------------- whole runs

  datatype Op =
    | Put(bytes: seq<byte>)
    | Take(n: nat)
    | Empty
    | Trim(mod: nat)
    | Bound(limit: nat)
    | Straighten(cont: nat, grant: Grant)

  // What the callers of buffer.c check before an operation.
  ghost predicate Allowed(f: Fifo, op: Op)
  {
    match op
    case Put(bytes) => |f.items| + |bytes| < f.size
    case Take(n) => n <= |f.items|
    case Empty => true
    case Trim(mod) => 0 < mod <= f.size
    case Bound(limit) => limit <= f.baseSize
    case Straighten(_, grant) => Bounded(grant)
  }

  ghost function Apply(f: Fifo, op: Op): Fifo
    requires Allowed(f, op)
  {
    match op
    case Put(bytes) => f.(items := f.items + bytes)
    case Take(n) => f.(items := f.items[n..])
    case Empty => f.(items := [])
    case Trim(mod) => Fifo([], f.size / mod * mod, f.size / mod * mod)
    case Bound(limit) => Fifo(if limit > 0 then [] else f.items, if limit > 0 then limit else f.baseSize, f.baseSize)
    case Straighten(_, _) => f
  }

  // The states of the ring in which an operation is not the FIFO's: writing to a parked buffer, draining
  // one, lifting a limit off wrapped bytes, and an unwrap that C leaves undefined.
  predicate Fails(buf: StreamBuffer, op: Op)
    requires buf.Valid()
    reads buf, buf.data
  {
    match op
    case Put(bytes) => buf.Parked() && bytes != []
    case Take(n) => buf.Parked() && n == buf.Used()
    case Empty => false
    case Trim(_) => false
    case Bound(limit) => limit == 0 && buf.writep < buf.readp && buf.size != buf.baseSize
    case Straighten(cont, grant) => buf.Undefined(cont, 1, grant)
  }

  ghost predicate Legal(f: Fifo, ops: seq<Op>)
    decreases |ops|
  {
    ops == [] || (Allowed(f, ops[0]) && Legal(Apply(f, ops[0]), ops[1..]))
  }

  ghost function Replay(f: Fifo, ops: seq<Op>): Fifo
    requires Legal(f, ops)
    decreases |ops|
  {
    if ops == [] then f else Replay(Apply(f, ops[0]), ops[1..])
  }

  lemma {:induction false} LegalPrefix(f: Fifo, ops: seq<Op>, n: nat)
    requires Legal(f, ops) && n <= |ops|
    ensures Legal(f, ops[..n])
    decreases n
  {
    if n > 0 {
      assert ops[..n][0] == ops[0] && ops[..n][1..] == ops[1..][..n - 1];
      LegalPrefix(Apply(f, ops[0]), ops[1..], n - 1);
    }
  }

  lemma {:induction false} ReplayMore(f: Fifo, ops: seq<Op>, n: nat)
    requires Legal(f, ops) && n < |ops|
    ensures Legal(f, ops[..n]) && Legal(f, ops[..n + 1])
    ensures Allowed(Replay(f, ops[..n]), ops[n])
    ensures Replay(f, ops[..n + 1]) == Apply(Replay(f, ops[..n]), ops[n])
    decreases n
  {
    LegalPrefix(f, ops, n);
    LegalPrefix(f, ops, n + 1);
    assert ops[..n + 1][0] == ops[0] && ops[..n + 1][1..] == ops[1..][..n];
    if n > 0 {
      assert ops[..n][0] == ops[0] && ops[..n][1..] == ops[1..][..n - 1];
      ReplayMore(Apply(f, ops[0]), ops[1..], n - 1);
    }
  }

  // Any schedule of calls acts on the ring as on a bounded FIFO, up to the first call, if there is one,
  // that finds the ring in a state in which it is not the FIFO's.
  method Run(buf: StreamBuffer, ops: seq<Op>) returns (done: nat)
    requires buf.Valid() && Legal(buf.View(), ops)
    modifies buf, buf.data
    ensures buf.Valid() && done <= |ops| && Legal(old(buf.View()), ops[..done])
    ensures buf.View() == Replay(old(buf.View()), ops[..done])
    ensures done < |ops| ==> Fails(buf, ops[done])
  {
    hide Fails, Apply, Allowed;
    done := 0;
    while done < |ops|
      invariant done <= |ops| && buf.Valid() && Legal(old(buf.View()), ops[..done])
      invariant buf.View() == Replay(old(buf.View()), ops[..done])
    {
      if Fails(buf, ops[done]) {
        return;
      }
      ReplayMore(old(buf.View()), ops, done);
      Perform(buf, ops[done]);
      done := done + 1;
    }
  }

  method Perform(buf: StreamBuffer, op: Op)
    requires buf.Valid() && Allowed(buf.View(), op) && !Fails(buf, op)
    modifies buf, buf.data
    ensures buf.Valid()
    ensures buf.View() == Apply(old(buf.View()), op)
  {
    hide Ring;
    match op
    case Put(bytes) =>
      if bytes != [] {
        buf.Write(bytes);
      }
    case Take(n) =>
      buf.IncReadp(n);
    case Empty =>
      buf.Flush();
    case Trim(mod) =>
      buf.Adjust(mod);
    case Bound(limit) =>
      var _ := buf.Limit(limit);
    case Straighten(cont, grant) =>
      var _ := buf.Unwrap(cont, 1, grant);
  }

  // Where a run stops, the call is not the FIFO's: a parked buffer takes no byte however much space it claims,
  // draining one makes it full, and bytes left wrapped come apart when the limit is lifted.
  method Misses(buf: StreamBuffer, op: Op) returns (room: nat, ghost tail: int)
    requires buf.Valid() && Allowed(buf.View(), op) && Fails(buf, op)
    modifies buf, buf.data
    ensures op.Put? ==> room == 0 && op.bytes != [] && buf.Valid() && buf.View() == old(buf.View())
    ensures op.Take? ==> !buf.Valid() && op.n == |old(buf.Contents())|
    ensures op.Bound? ==> op.limit == 0 && buf.Valid() && buf.Contents() != old(buf.Contents())
    ensures op.Straighten? ==> tail < 0 && old(buf.BranchFor(op.cont, 1, op.grant)) == Scratch
    ensures !op.Empty? && !op.Trim?
  {
    hide Ring;
    room := buf.Room();
    tail := buf.Tail(if op.Straighten? then op.cont else 0);
    match op
    case Take(n) =>
      buf.IncReadp(n);
    case Bound(limit) =>
      var _ := buf.Limit(limit);
    case _ =>
  }

  // The bytes a run reads, in order.
  ghost function Taken(f: Fifo, ops: seq<Op>): seq<byte>
    requires Legal(f, ops)
    decreases |ops|
  {
    if ops == [] then []
    else (if ops[0].Take? then f.items[..ops[0].n] else []) + Taken(Apply(f, ops[0]), ops[1..])
  }

  // The bytes a run writes, in order.
  ghost function Written(ops: seq<Op>): seq<byte>
  {
    if ops == [] then [] else (if ops[0].Put? then ops[0].bytes else []) + Written(ops[1..])
  }

  // Between two resets nothing is lost, duplicated or reordered.
  lemma {:induction false} RunConserves(f: Fifo, ops: seq<Op>)
    requires Legal(f, ops)
    requires forall op :: op in ops ==> op.Put? || op.Take? || op.Straighten?
    ensures Taken(f, ops) + Replay(f, ops).items == f.items + Written(ops)
    decreases |ops|
  {
    if ops != [] {
      var g := Apply(f, ops[0]);
      RunConserves(g, ops[1..]);
      var taken := if ops[0].Take? then f.items[..ops[0].n] else [];
      var put := if ops[0].Put? then ops[0].bytes else [];
      assert taken + g.items == f.items + put;
      Regroup(taken, Taken(g, ops[1..]), Replay(g, ops[1..]).items, g.items, f.items, put, Written(ops[1..]));
    }
  }

  lemma Regroup(a: seq<byte>, b: seq<byte>, c: seq<byte>, m: seq<byte>, x: seq<byte>, y: seq<byte>, z: seq<byte>)
    requires b + c == m + z && a + m == x + y
    ensures (a + b) + c == x + (y + z)
  {
    assert (a + b) + c == a + (b + c);
    assert a + (m + z) == (a + m) + z;
    assert (x + y) + z == x + (y + z);
  }

  // The bytes held never exceed the capacity of size - 1, whatever the schedule.
  lemma {:induction false} RunBounded(f: Fifo, ops: seq<Op>)
    requires Legal(f, ops) && |f.items| < f.size <= f.baseSize
    ensures |Replay(f, ops).items| < Replay(f, ops).size <= Replay(f, ops).baseSize
    decreases |ops|
  {
    if ops != [] {
      if ops[0].Trim? {
        WholeFrames(f.size, ops[0].mod);
      }
      RunBounded(Apply(f, ops[0]), ops[1..]);
    }
  }

  // Once the buffer is trimmed to whole frames of mod bytes, reads of whole frames leave the
  // read pointer on a frame boundary with a whole frame before the wrap.
  lemma FramesStayContiguous(a: nat, b: nat, c: nat, mod: nat)
    requires 0 < mod && a * mod < c * mod && b * mod <= c * mod
    ensures At(a * mod, c * mod, b * mod) % mod == 0
    ensures At(a * mod, c * mod, b * mod) + mod <= c * mod
  {
    SumTimes(a, b, mod);
    if a * mod + b * mod < c * mod {
      WholeFrame(a + b, c, mod);
    } else {
      Distribute(a + b, c, mod);
      WholeFrame(a + b - c, c, mod);
    }
  }

  lemma SumTimes(a: int, b: int, d: int)
    ensures (a + b) * d == a * d + b * d
  {
  }

  // Multiples of a frame that are below another are a frame below it.
  lemma WholeFrame(q: int, c: int, mod: nat)
    requires 0 < mod && q * mod < c * mod
    ensures (q * mod) % mod == 0 && q * mod + mod <= c * mod
  {
    Distribute(c, q, mod);
    MultipleAway(c - q, mod);
    DivModUnique(q * mod, q, mod, 0);
  }

  // The write pointer an unwrap can park makes the last read resurrect storage:
  // three bytes read from a four-byte buffer leave it claiming four.
  method ParkedDrain() returns (before: nat, after: nat, size: nat)
    ensures before == 3 && after == 4 && size == 4
  {
    hide Ring;
    var buf := Park();
    before := buf.Used();
    buf.IncReadp(3);
    after := buf.Used();
    size := buf.size;
  }

  method Park() returns (buf: StreamBuffer)
    ensures fresh(buf) && fresh(buf.data) && buf.Valid() && buf.Parked() && buf.size == 4 && buf.readp == 1
  {
    hide Straightened;
    buf := new StreamBuffer(4);
    buf.Append([1, 2, 3]);
    buf.IncReadp(2);
    buf.Append([4]);
    buf.Append([5]);
    assert buf.readp == 2 && buf.writep == 1;
    var _ := buf.Unwrap(3, 1, (c, n) => false);
  }

  // A buffer whose unwrap, given the memory it asks for, moves a negative number of bytes: eight bytes
  // of storage, five held from offset 7 on, six wanted in one piece.
  method NegativeMove() returns (branch: Branch, tail: int)
    ensures branch == Scratch && tail == -3
  {
    var buf := new StreamBuffer(8);
    buf.Append([1, 2, 3, 4, 5, 6, 7]);
    buf.IncReadp(7);
    buf.Append([8]);
    buf.Append([9, 10, 11, 12]);
    assert buf.readp == 7 && buf.writep == 4;
    branch := buf.BranchFor(6, 1, (c, n) => n < MAX_BLOCK);
    tail := buf.Tail(6);
  }

  // ---------------------------------------------------------------- the moves

  // Bytes that do not wrap just move down.
  method SlideDown(data: array<byte>, readp: nat, writep: nat, wrap: nat, shift: nat)
    requires shift <= readp <= writep <= wrap <= data.Length && readp < wrap && 0 < shift
    modifies data
    ensures Ring(data[..], readp - shift, writep - shift, wrap) == old(Ring(data[..], readp, writep, wrap))
  {
    hide Copied, Ring;
    ghost var d := data[..];
    MemMove(data, readp - shift, readp, writep - readp);
    ghost var d1 := data[..];
    assert d1 == Copied(d, readp - shift, readp, writep - readp);
    UnwrappedMove(d, readp, writep, wrap, shift);
  }

  // Moves everything down by `shift` when the gap between the pointers is wide enough.
  // _buf_unwrap reaches this only with gap == shift; it is right for any gap >= shift.
  method MoveWrapped(data: array<byte>, readp: nat, writep: nat, wrap: nat, shift: nat) returns (w: nat)
    requires writep < readp < wrap <= data.Length && 0 < shift <= readp - writep
    modifies data
    ensures w == if writep > shift then writep - shift else writep + wrap - shift
    ensures Ring(data[..], readp - shift, w, wrap) == old(Ring(data[..], readp, writep, wrap))
  {
    hide Copied, Ring;
    ghost var d := data[..];
    MemMove(data, readp - shift, readp, wrap - readp);
    ghost var d1 := data[..];
    assert d1 == Copied(d, readp - shift, readp, wrap - readp);
    MemCpy(data, wrap - shift, 0, Min(writep, shift));
    ghost var d2 := data[..];
    assert d2 == Copied(d1, wrap - shift, 0, Min(writep, shift));
    DirectMove(d, readp, writep, wrap, shift);
    if writep > shift {
      MemMove(data, 0, shift, writep - shift);
      ghost var d3 := data[..];
      assert d3 == Copied(d2, 0, shift, writep - shift);
      w := writep - shift;
    } else {
      w := writep + wrap - shift;
    }
  }

  // Moves everything down by `shift`, saving the `overlap` bytes the move would overwrite.
  method MoveThroughScratch(data: array<byte>, readp: nat, writep: nat, wrap: nat, shift: nat, overlap: nat)
    requires writep < readp < wrap <= data.Length && 0 < shift && 2 * shift <= readp
    requires overlap == shift - (readp - writep) && 0 < overlap
    modifies data
    ensures Ring(data[..], readp - shift, writep - shift, wrap) == old(Ring(data[..], readp, writep, wrap))
  {
    hide Copied, Stored, Ring;
    var d := data[..];
    var scratch := d[writep - overlap..writep];
    MemMove(data, readp - shift, readp, wrap - readp);
    ghost var d1 := data[..];
    assert d1 == Copied(d, readp - shift, readp, wrap - readp);
    MemCpy(data, wrap - shift, 0, shift);
    ghost var d2 := data[..];
    assert d2 == Copied(d1, wrap - shift, 0, shift);
    MemMove(data, 0, shift, writep - shift - overlap);
    ghost var d3 := data[..];
    assert d3 == Copied(d2, 0, shift, writep - shift - overlap);
    Store(data, writep - shift - overlap, scratch);
    ghost var d4 := data[..];
    assert d4 == Stored(d3, writep - shift - overlap, scratch);
    ScratchMove(d, readp, writep, wrap, shift, overlap);
  }

  // ---------------------------------------------------------------- the pointers alone

  // by in _buf_unwrap.
  function ShiftOf(p: Ends, size: nat, cont: nat): int {
    cont - (size - p.readp)
  }

  // size in _buf_unwrap.
  function OverlapOf(p: Ends, size: nat, cont: nat): nat {
    (ShiftOf(p, size, cont) - (p.readp - p.writep)) % WORD
  }

  // len - by - size in _buf_unwrap.
  function TailOf(p: Ends, size: nat, cont: nat): int {
    var shift := ShiftOf(p, size, cont);
    p.writep - shift - (shift - (p.readp - p.writep))
  }

  function BranchOf(p: Ends, size: nat, cont: nat, call: nat, grant: Grant): Branch {
    if ShiftOf(p, size, cont) <= 0 || cont >= size then Enough
    else if p.writep >= p.readp then Slide
    else if OverlapOf(p, size, cont) == 0 then Direct
    else if grant(call, OverlapOf(p, size, cont)) then Scratch
    else Halve
  }

  predicate UndefinedAt(p: Ends, size: nat, cont: nat, call: nat, grant: Grant) {
    BranchOf(p, size, cont, call, grant) == Scratch && TailOf(p, size, cont) < 0
  }

  // Pointers of a ring of this size, which is not full.
  predicate InRing(p: Ends, size: nat) {
    p.readp < size < MAX_BLOCK && p.writep <= size && !(p.readp == 0 && p.writep == size)
  }

  // Where the moves leave the pointers.
  function MovedDown(p: Ends, size: nat, shift: nat): (q: Ends)
    requires shift <= p.readp && (shift <= p.writep || p.writep <= p.readp <= size)
  {
    Ends(p.readp - shift, if shift < p.writep then p.writep - shift else p.writep + size - shift)
  }

  // Where _buf_unwrap leaves the pointers.
  ghost function Straightened(p: Ends, size: nat, cont: nat, call: nat, grant: Grant): (q: Ends)
    requires InRing(p, size) && Bounded(grant) && !UndefinedAt(p, size, cont, call, grant)
    ensures InRing(q, size) && q.readp <= p.readp
    decreases cont
  {
    match BranchOf(p, size, cont, call, grant)
    case Enough => p
    case Halve =>
      HalfDefined(p, size, cont / 2, 2 * call, grant);
      var q := Straightened(p, size, cont / 2, 2 * call, grant);
      HalfDefined(q, size, cont - cont / 2, 2 * call + 1, grant);
      Straightened(q, size, cont - cont / 2, 2 * call + 1, grant)
    case _ => MovedDown(p, size, ShiftOf(p, size, cont))
  }

  // The halves always meet the condition of the scratch branch.
  lemma HalfDefined(p: Ends, size: nat, half: nat, call: nat, grant: Grant)
    requires InRing(p, size) && 2 * half <= size + 1
    ensures !UndefinedAt(p, size, half, call, grant)
  {
  }

  // ... there are cont bytes before the wrap, but when there were more anyway or no memory.
  lemma StraightenedIs(p: Ends, size: nat, cont: nat, call: nat, grant: Grant)
    requires InRing(p, size) && Bounded(grant) && !UndefinedAt(p, size, cont, call, grant)
    ensures var q, shift := Straightened(p, size, cont, call, grant), ShiftOf(p, size, cont);
            match BranchOf(p, size, cont, call, grant)
            case Enough => q == p
            case Slide => q == Ends(size - cont, p.writep - shift) && q.writep < size
            case Direct =>
              && q == Ends(size - cont, if p.writep > shift then p.writep - shift else p.writep + size - shift)
              && (q.writep == size <==> p.writep == shift)
            case Scratch => q == Ends(size - cont, p.writep - shift) && q.writep < size
            case Halve => true
  {
    if BranchOf(p, size, cont, call, grant) == Scratch {
      ScratchOverlaps(p, size, cont);
    }
    hide OverlapOf;
  }

  // What is asked for is the gap the shift exceeds, when it does not exceed it by less than nothing.
  lemma GapOverlap(p: Ends, size: nat, cont: nat)
    requires InRing(p, size) && p.writep < p.readp && 0 < ShiftOf(p, size, cont) && cont < size
    ensures var gap := cont - (size - p.readp) - (p.readp - p.writep);
            && (OverlapOf(p, size, cont) < MAX_BLOCK <==> gap >= 0)
            && (gap >= 0 ==> OverlapOf(p, size, cont) == gap)
  {
  }

  // A request for scratch memory that can be granted is for a real overlap.
  lemma ScratchOverlaps(p: Ends, size: nat, cont: nat)
    requires InRing(p, size) && p.writep < p.readp && 0 < ShiftOf(p, size, cont) && cont < size
    requires 0 != OverlapOf(p, size, cont) < MAX_BLOCK
    ensures ShiftOf(p, size, cont) > p.readp - p.writep
  {
  }

  lemma StraightenedHalves(p: Ends, size: nat, cont: nat, call: nat, grant: Grant)
    requires InRing(p, size) && Bounded(grant) && BranchOf(p, size, cont, call, grant) == Halve
    ensures 2 <= cont < size && !UndefinedAt(p, size, cont, call, grant)
    ensures !UndefinedAt(p, size, cont / 2, 2 * call, grant)
    ensures var q := Straightened(p, size, cont / 2, 2 * call, grant);
            && !UndefinedAt(q, size, cont - cont / 2, 2 * call + 1, grant)
            && Straightened(p, size, cont, call, grant)
               == Straightened(q, size, cont - cont / 2, 2 * call + 1, grant)
  {
    assert !UndefinedAt(p, size, cont, call, grant);
    hide OverlapOf, TailOf, UndefinedAt;
    HalfDefined(p, size, cont / 2, 2 * call, grant);
    var q := Straightened(p, size, cont / 2, 2 * call, grant);
    HalfDefined(q, size, cont - cont / 2, 2 * call + 1, grant);
  }

  // Never more than cont bytes before the wrap if there were fewer, and fewer without memory; as many
  // bytes between the pointers as before.
  lemma {:induction false} StraightenedRoom(p: Ends, size: nat, cont: nat, call: nat, grant: Grant)
    requires InRing(p, size) && Bounded(grant) && !UndefinedAt(p, size, cont, call, grant)
    ensures var q := Straightened(p, size, cont, call, grant);
            && size - q.readp <= Max(size - p.readp, cont)
            && (BranchOf(p, size, cont, call, grant) == Halve ==> size - q.readp < cont)
            && Span(q.readp, q.writep, size) == Span(p.readp, p.writep, size)
    decreases cont
  {
    hide Straightened, Ring;
    StraightenedIs(p, size, cont, call, grant);
    if BranchOf(p, size, cont, call, grant) == Halve {
      StraightenedHalves(p, size, cont, call, grant);
      StraightenedRoom(p, size, cont / 2, 2 * call, grant);
      var q := Straightened(p, size, cont / 2, 2 * call, grant);
      StraightenedRoom(q, size, cont - cont / 2, 2 * call + 1, grant);
    }
  }

  // Number of bytes between two ring pointers.
  function Span(readp: nat, writep: nat, wrap: nat): (n: nat)
    requires readp <= wrap && writep <= wrap
    ensures n <= wrap
  {
    if writep >= readp then writep - readp else wrap - (readp - writep)
  }

  // Storage offset of the i-th byte from a ring pointer on.
  function At(readp: nat, wrap: nat, i: nat): (k: nat)
    requires readp <= wrap && i <= wrap
    ensures k <= wrap
  {
    if readp + i < wrap then readp + i else readp + i - wrap
  }

  // The bytes between two ring pointers of the storage d, front first.
  function Ring(d: seq<byte>, readp: nat, writep: nat, wrap: nat): (s: seq<byte>)
    requires readp < wrap <= |d| && writep <= wrap
    ensures |s| == Span(readp, writep, wrap)
  {
    Stretch(d, readp, wrap, Span(readp, writep, wrap))
  }

  // The n bytes met going round the ring from `from` on.
  function Stretch(d: seq<byte>, from: nat, wrap: nat, n: nat): (s: seq<byte>)
    requires 0 < wrap <= |d| && from <= wrap && n <= wrap
    ensures |s| == n
    ensures forall i {:trigger s[i]} :: 0 <= i < n ==> At(from, wrap, i) < |d| && s[i] == d[At(from, wrap, i)]
  {
    seq(n, i requires 0 <= i < n => d[At(from, wrap, i)])
  }

  // The first bytes of a buffer that wraps, when they do.
  lemma RingInTwo(d: seq<byte>, readp: nat, writep: nat, wrap: nat, n: nat)
    requires writep < readp < wrap <= |d| && wrap - readp <= n <= Span(readp, writep, wrap)
    ensures Ring(d, readp, writep, wrap)[..n] == d[readp..wrap] + d[..n - (wrap - readp)]
  {
  }

  // The copy of a buffer that does not wrap.
  lemma UnwrappedMove(d: seq<byte>, readp: nat, writep: nat, wrap: nat, shift: nat)
    requires shift <= readp <= writep <= wrap <= |d| && readp < wrap
    ensures Ring(Copied(d, readp - shift, readp, writep - readp), readp - shift, writep - shift, wrap)
         == Ring(d, readp, writep, wrap)
  {
  }

  // The copies of the direct branch.
  lemma DirectMove(d: seq<byte>, readp: nat, writep: nat, wrap: nat, shift: nat)
    requires writep < readp < wrap <= |d| && 0 < shift <= readp - writep
    ensures var d1 := Copied(d, readp - shift, readp, wrap - readp);
            var d2 := Copied(d1, wrap - shift, 0, Min(writep, shift));
            Ring(d, readp, writep, wrap) ==
            if writep > shift then
              Ring(Copied(d2, 0, shift, writep - shift), readp - shift, writep - shift, wrap)
            else
              Ring(d2, readp - shift, writep + wrap - shift, wrap)
  {
    hide Ring, Copied;
    if writep > shift {
      DirectLong(d, readp, writep, wrap, shift);
    } else {
      DirectShort(d, readp, writep, wrap, shift);
    }
  }

  lemma DirectLong(d: seq<byte>, readp: nat, writep: nat, wrap: nat, shift: nat)
    requires writep < readp < wrap <= |d| && 0 < shift <= readp - writep && shift < writep
    ensures var d2 := Copied(Copied(d, readp - shift, readp, wrap - readp), wrap - shift, 0, shift);
            Ring(d, readp, writep, wrap) ==
            Ring(Copied(d2, 0, shift, writep - shift), readp - shift, writep - shift, wrap)
  {
  }

  lemma DirectShort(d: seq<byte>, readp: nat, writep: nat, wrap: nat, shift: nat)
    requires writep < readp < wrap <= |d| && 0 < shift <= readp - writep && writep <= shift
    ensures var d2 := Copied(Copied(d, readp - shift, readp, wrap - readp), wrap - shift, 0, writep);
            Ring(d, readp, writep, wrap) == Ring(d2, readp - shift, writep + wrap - shift, wrap)
  {
  }

  // The copies of the scratch branch.
  lemma ScratchMove(d: seq<byte>, readp: nat, writep: nat, wrap: nat, shift: nat, overlap: nat)
    requires writep < readp < wrap <= |d| && 0 < shift && 2 * shift <= readp
    requires overlap == shift - (readp - writep) && 0 < overlap
    ensures var d1 := Copied(d, readp - shift, readp, wrap - readp);
            var d2 := Copied(d1, wrap - shift, 0, shift);
            var d3 := Copied(d2, 0, shift, writep - shift - overlap);
            var d4 := Stored(d3, writep - shift - overlap, d[writep - overlap..writep]);
            Ring(d4, readp - shift, writep - shift, wrap) == Ring(d, readp, writep, wrap)
  {
  }

  lemma NoFrames(size: nat, mod: nat)
    requires size < mod
    ensures size / mod * mod == 0
  {
    DivModUnique(size, 0, mod, size);
  }

  lemma WholeFrames(size: nat, mod: nat)
    requires 0 < mod <= size
    ensures 0 < size / mod * mod <= size && size - mod < size / mod * mod
    ensures (size / mod * mod) % mod == 0
  {
    var q := size / mod;
    assert size == q * mod + size % mod;
    assert q >= 1;
    DivModUnique(q * mod, q, mod, 0);
  }
}
