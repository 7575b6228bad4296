/** components/raop/dmap_parser.c: the recursive parser of DMAP messages, runs of fields made of
    a four-byte code, a 32-bit big-endian length and a payload. */
module Dmap {
  import opened BigEndian
  import opened Memory
  import opened Wrappers

  datatype Kind = Unknown | UInt | Int | Str | Data | Date | Vers | Dict | Item

  // A row of the content code table; listItem is Unknown when listings of the code have no type.
  datatype Field = Field(kind: Kind, listItem: Kind)

  // The table, and whether the platform's plain char is signed.
  datatype Config = Config(fields: map<seq<byte>, Field>, charSigned: bool)

  // The callbacks. A date whose payload is shorter than four bytes reads past it: no value.
  datatype Event =
    | DictStart(code: seq<byte>)
    | DictEnd(code: seq<byte>)
    | Int32(code: seq<byte>, i: int)
    | Int64(code: seq<byte>, i: int)
    | UInt32(code: seq<byte>, u: int)
    | UInt64(code: seq<byte>, u: int)
    | DateAt(code: seq<byte>, seconds: Option<int>)
    | Text(code: seq<byte>, bytes: seq<byte>)
    | Blob(code: seq<byte>, bytes: seq<byte>)

  datatype Outcome = Outcome(events: seq<Event>, ok: bool)

  // ---------------------------------------------------------------- numbers

  // Two's complement.
  function Signed(width: nat, v: int): int {
    if 2 * v < Range(width) then v else v - Range(width)
  }

  // Decimal digits, as printf's %u writes them.
  function Decimal(n: nat): seq<byte> {
    if n < 10 then [(48 + n) as byte] else Decimal(n / 10) + [(48 + n % 10) as byte]
  }

  // ---------------------------------------------------------------- field types

  predicate IsAlpha(b: byte) {
    65 <= b <= 90 || 97 <= b <= 122
  }

  predicate IsPrint(b: byte) {
    32 <= b <= 126
  }

  function FieldOf(cfg: Config, code: seq<byte>): Option<Field> {
    if code in cfg.fields then Some(cfg.fields[code]) else None
  }

  // Listing items take their type from the field they are in.
  function KnownKind(field: Field, parent: Option<Field>): Kind {
    if field.kind != Item then field.kind
    else if parent.Some? && parent.value.listItem != Unknown then parent.value.listItem
    else Dict
  }

  // The best guess for a code that is not in the table.
  function GuessedKind(payload: seq<byte>): Kind {
    if && |payload| >= 8
       && IsAlpha(payload[0]) && IsAlpha(payload[1]) && IsAlpha(payload[2]) && IsAlpha(payload[3])
       && ReadBE(payload[4..8]) < |payload|
    then Dict
    else if forall b :: b in payload ==> IsPrint(b) then Str
    else UInt
  }

  function KindOf(cfg: Config, code: seq<byte>, payload: seq<byte>, parent: Option<Field>): Kind {
    if code in cfg.fields then KnownKind(cfg.fields[code], parent) else GuessedKind(payload)
  }

  // The callbacks for a field that is not a dictionary.
  function LeafEvents(cfg: Config, kind: Kind, code: seq<byte>, p: seq<byte>): seq<Event> {
    match kind
    case UInt =>
      if |p| in {1, 2, 4} then [UInt32(code, ReadBE(p))]
      else if |p| == 8 then [UInt64(code, ReadBE(p))]
      else [Blob(code, p)]
    case Int =>
      if |p| == 1 then [Int32(code, if cfg.charSigned then Signed(1, ReadBE(p)) else ReadBE(p))]
      else if |p| in {2, 4} then [Int32(code, Signed(|p|, ReadBE(p)))]
      else if |p| == 8 then [Int64(code, Signed(8, ReadBE(p)))]
      else [Blob(code, p)]
    case Str => [Text(code, p)]
    case Data => [Blob(code, p)]
    case Date => [DateAt(code, if |p| >= 4 then Some(ReadBE(p[..4])) else None)]
    case Vers =>
      if |p| >= 4 then [Text(code, Decimal(ReadBE(p[..2])) + [46] + Decimal(ReadBE(p[2..4])))] else []
    case Unknown => []
    case Dict => []
    case Item => []
  }

  // ---------------------------------------------------------------- the parser

  function Then(events: seq<Event>, rest: Outcome): Outcome {
    Outcome(events + rest.events, rest.ok)
  }

  // What parsing a buffer reports.
  function Parse(cfg: Config, buf: seq<byte>, parent: Option<Field>): Outcome
    decreases |buf|, 0
  {
    if |buf| < 8 then Outcome([], |buf| == 0)
    else if 8 + ReadBE(buf[4..8]) > |buf| then Outcome([], false)
    else
      var head := ParseField(cfg, buf[..4], buf[8..8 + ReadBE(buf[4..8])], parent);
      if !head.ok then head else Then(head.events, Parse(cfg, buf[8 + ReadBE(buf[4..8])..], parent))
  }

  function ParseField(cfg: Config, code: seq<byte>, payload: seq<byte>, parent: Option<Field>): Outcome
    decreases |payload|, 1
  {
    var kind := KindOf(cfg, code, payload, parent);
    if kind != Dict then Outcome(LeafEvents(cfg, kind, code, payload), true)
    else
      var inner := Parse(cfg, payload, FieldOf(cfg, code));
      if inner.ok then Outcome([DictStart(code)] + inner.events + [DictEnd(code)], true)
      else Outcome([DictStart(code)] + inner.events, false)
  }

  // dmap_parse_internal: the events are the callbacks made, in order.
  method ParseInternal(cfg: Config, buf: seq<byte>, parent: Option<Field>) returns (events: seq<Event>, ok: bool)
    ensures Outcome(events, ok) == Parse(cfg, buf, parent)
    decreases |buf|, 0, 1
  {
    events := [];
    var p := 0;
    assert buf[0..] == buf;
    hide Parse, Then;
    ThenDone([], Parse(cfg, buf, parent));
    while |buf| - p >= 8
      invariant 0 <= p <= |buf|
      invariant Parse(cfg, buf, parent) == Then(events, Parse(cfg, buf[p..], parent))
      decreases |buf| - p
    {
      var head, accepted, next := EmitAt(cfg, buf, p, parent);
      ThenFailed(events, head);
      ThenThen(events, head, Parse(cfg, buf[next..], parent));
      events := events + head;
      if !accepted {
        return events, false;
      }
      p := next;
    }
    ParseEnd(cfg, buf, p, parent);
    ThenDone(events, Outcome([], p == |buf|));
    ok := p == |buf|;
  }

  // One turn of the loop: the field at p.
  method EmitAt(cfg: Config, buf: seq<byte>, p: nat, parent: Option<Field>)
      returns (events: seq<Event>, accepted: bool, next: nat)
    requires p + 8 <= |buf|
    ensures p < next <= |buf|
    ensures Parse(cfg, buf[p..], parent) ==
            if accepted then Then(events, Parse(cfg, buf[next..], parent)) else Outcome(events, false)
    decreases |buf|, 0, 0
  {
    hide Parse, ParseField, Then, ReadBE;
    ParseStep(cfg, buf, p, parent);
    var code := buf[p..p + 4];
    var len := ReadBE(buf[p + 4..p + 8]);
    if p + 8 + len > |buf| {
      return [], false, |buf|;
    }
    next := p + 8 + len;
    events, accepted := EmitField(cfg, code, buf[p + 8..next], parent);
  }

  // The part of the loop that makes the callbacks of one field.
  method EmitField(cfg: Config, code: seq<byte>, payload: seq<byte>, parent: Option<Field>)
      returns (events: seq<Event>, ok: bool)
    ensures Outcome(events, ok) == ParseField(cfg, code, payload, parent)
    decreases |payload|, 1
  {
    hide KindOf, LeafEvents;
    var kind := KindOf(cfg, code, payload, parent);
    if kind != Dict {
      return LeafEvents(cfg, kind, code, payload), true;
    }
    events := [DictStart(code)];
    var inner, accepted := ParseInternal(cfg, payload, FieldOf(cfg, code));
    events := events + inner;
    if !accepted {
      return events, false;
    }
    events := events + [DictEnd(code)];
    ok := true;
  }

  lemma ThenThen(a: seq<Event>, b: seq<Event>, rest: Outcome)
    ensures Then(a, Then(b, rest)) == Then(a + b, rest)
  {
    assert a + (b + rest.events) == a + b + rest.events;
  }

  lemma ThenFailed(a: seq<Event>, b: seq<Event>)
    ensures Then(a, Outcome(b, false)) == Outcome(a + b, false)
  {
  }

  lemma ThenDone(a: seq<Event>, rest: Outcome)
    ensures Then([], rest) == rest
    ensures rest.events == [] ==> Then(a, rest) == Outcome(a, rest.ok)
  {
    assert [] + rest.events == rest.events;
    assert a + [] == a;
  }

  lemma ParseEnd(cfg: Config, buf: seq<byte>, at: nat, parent: Option<Field>)
    requires at <= |buf| < at + 8
    ensures Parse(cfg, buf[at..], parent) == Outcome([], at == |buf|)
  {
  }

  // One turn of the loop at offset `at`, and what it leaves to parse.
  lemma ParseStep(cfg: Config, buf: seq<byte>, at: nat, parent: Option<Field>)
    requires at + 8 <= |buf|
    ensures var len := ReadBE(buf[at + 4..at + 8]);
            Parse(cfg, buf[at..], parent) ==
            if at + 8 + len > |buf| then Outcome([], false)
            else
              var head := ParseField(cfg, buf[at..at + 4], buf[at + 8..at + 8 + len], parent);
              if head.ok then Then(head.events, Parse(cfg, buf[at + 8 + len..], parent)) else head
  {
    hide ParseField;
    var rest := buf[at..];
    assert rest[..4] == buf[at..at + 4] && rest[4..8] == buf[at + 4..at + 8];
    var len := ReadBE(buf[at + 4..at + 8]);
    if at + 8 + len <= |buf| {
      assert rest[8..8 + len] == buf[at + 8..at + 8 + len];
      assert rest[8 + len..] == buf[at + 8 + len..];
    }
  }

  // dmap_parse
  method ParseMessage(cfg: Config, buf: seq<byte>) returns (events: seq<Event>, ok: bool)
    ensures Outcome(events, ok) == Parse(cfg, buf, None)
  {
    events, ok := ParseInternal(cfg, buf, None);
  }

  // ---------------------------------------------------------------- what is accepted

  // A field on the wire.
  datatype Raw = Raw(code: seq<byte>, payload: seq<byte>)

  function Wire(r: Raw): seq<byte> {
    r.code + BE(4, |r.payload|) + r.payload
  }

  function WireAll(items: seq<Raw>): seq<byte> {
    if items == [] then [] else Wire(items[0]) + WireAll(items[1..])
  }

  // A field with a code and length that fit, whose payload is accepted if it is a dictionary.
  ghost predicate Accepted(cfg: Config, r: Raw, parent: Option<Field>) {
    && |r.code| == 4 && |r.payload| < Range(4)
    && (KindOf(cfg, r.code, r.payload, parent) == Dict ==> Parse(cfg, r.payload, FieldOf(cfg, r.code)).ok)
  }

  ghost predicate AllAccepted(cfg: Config, items: seq<Raw>, parent: Option<Field>) {
    forall r :: r in items ==> Accepted(cfg, r, parent)
  }

  // Parsing a field in front of anything parses that field, then the rest.
  lemma ParseWire(cfg: Config, r: Raw, rest: seq<byte>, parent: Option<Field>)
    requires |r.code| == 4 && |r.payload| < Range(4)
    ensures var head := ParseField(cfg, r.code, r.payload, parent);
            Parse(cfg, Wire(r) + rest, parent) ==
            if head.ok then Then(head.events, Parse(cfg, rest, parent)) else head
  {
    hide ParseField, Range;
    var buf := Wire(r) + rest;
    ReadWritten(4, |r.payload|);
    assert buf[4..8] == BE(4, |r.payload|);
    assert buf[0..] == buf && buf[0..4] == r.code;
    assert buf[8..8 + |r.payload|] == r.payload && buf[8 + |r.payload|..] == rest;
    ParseStep(cfg, buf, 0, parent);
  }

  lemma {:induction false} RunIsAccepted(cfg: Config, items: seq<Raw>, parent: Option<Field>)
    requires AllAccepted(cfg, items, parent)
    ensures Parse(cfg, WireAll(items), parent).ok
  {
    if items != [] {
      RunIsAccepted(cfg, items[1..], parent);
      assert Accepted(cfg, items[0], parent);
      ParseWire(cfg, items[0], WireAll(items[1..]), parent);
    }
  }

  lemma {:induction false} AcceptedIsRun(cfg: Config, buf: seq<byte>, parent: Option<Field>) returns (items: seq<Raw>)
    requires Parse(cfg, buf, parent).ok
    ensures WireAll(items) == buf && AllAccepted(cfg, items, parent)
    decreases |buf|
  {
    if |buf| < 8 {
      return [];
    }
    var len := ReadBE(buf[4..8]);
    var r := Raw(buf[..4], buf[8..8 + len]);
    var tail := buf[8 + len..];
    var rest := AcceptedIsRun(cfg, tail, parent);
    HeadOnWire(buf, len);
    items := [r] + rest;
    assert items[1..] == rest;
    assert Accepted(cfg, r, parent);
  }

  // The first field of a buffer is what comes before the rest.
  lemma HeadOnWire(buf: seq<byte>, len: nat)
    requires 8 + len <= |buf| && len == ReadBE(buf[4..8])
    ensures len < Range(4) && Wire(Raw(buf[..4], buf[8..8 + len])) + buf[8 + len..] == buf
  {
    WrittenRead(buf[4..8]);
    assert buf[..4] + buf[4..8] + buf[8..8 + len] + buf[8 + len..] == buf;
  }

  // The parser returns 0 exactly for a back-to-back run of fields whose dictionaries it accepts.
  lemma AcceptsExactly(cfg: Config, buf: seq<byte>, parent: Option<Field>)
    ensures Parse(cfg, buf, parent).ok
       <==> exists items :: WireAll(items) == buf && AllAccepted(cfg, items, parent)
  {
    if Parse(cfg, buf, parent).ok {
      var items := AcceptedIsRun(cfg, buf, parent);
    }
    if items :| WireAll(items) == buf && AllAccepted(cfg, items, parent) {
      RunIsAccepted(cfg, items, parent);
    }
  }

  // After an accepted message the parser carries on with whatever follows it.
  lemma {:induction false} ParseConcat(cfg: Config, a: seq<byte>, b: seq<byte>, parent: Option<Field>)
    requires Parse(cfg, a, parent).ok
    ensures Parse(cfg, a + b, parent) == Then(Parse(cfg, a, parent).events, Parse(cfg, b, parent))
    decreases |a|
  {
    hide ParseField;
    if |a| < 8 {
      assert a + b == b;
      ThenDone([], Parse(cfg, b, parent));
    } else {
      var len := ReadBE(a[4..8]);
      var rest := a[8 + len..];
      ParseConcat(cfg, rest, b, parent);
      assert (a + b)[4..8] == a[4..8] && (a + b)[..4] == a[..4];
      assert (a + b)[8..8 + len] == a[8..8 + len];
      assert (a + b)[8 + len..] == rest + b;
      var head := ParseField(cfg, a[..4], a[8..8 + len], parent);
      ThenThen(head.events, Parse(cfg, rest, parent).events, Parse(cfg, b, parent));
    }
  }

  // ---------------------------------------------------------------- nesting

  // The dictionaries open after a run of events, innermost last; none when an end event does
  // not match the dictionary it closes.
  function Nest(open: seq<seq<byte>>, events: seq<Event>): Option<seq<seq<byte>>>
    decreases |events|
  {
    if events == [] then Some(open)
    else match events[0]
      case DictStart(code) => Nest(open + [code], events[1..])
      case DictEnd(code) =>
        if open != [] && open[|open| - 1] == code then Nest(open[..|open| - 1], events[1..]) else None
      case _ => Nest(open, events[1..])
  }

  lemma {:induction false} NestConcat(open: seq<seq<byte>>, a: seq<Event>, b: seq<Event>)
    ensures Nest(open, a + b) ==
            match Nest(open, a) case Some(mid) => Nest(mid, b) case None => None
    decreases |a|
  {
    if a == [] {
      assert a + b == b;
    } else {
      assert (a + b)[1..] == a[1..] + b;
      match a[0]
      case DictStart(code) => NestConcat(open + [code], a[1..], b);
      case DictEnd(code) =>
        if open != [] && open[|open| - 1] == code {
          NestConcat(open[..|open| - 1], a[1..], b);
        }
      case _ => NestConcat(open, a[1..], b);
    }
  }

  // Start and end events match: balanced when the message is accepted, and never a wrong end
  // when it is not.
  lemma {:induction false} EventsNest(cfg: Config, buf: seq<byte>, parent: Option<Field>, open: seq<seq<byte>>)
    ensures var o := Parse(cfg, buf, parent);
            && Nest(open, o.events).Some?
            && (o.ok ==> Nest(open, o.events) == Some(open))
    decreases |buf|, 0
  {
    if |buf| >= 8 && 8 + ReadBE(buf[4..8]) <= |buf| {
      var len := ReadBE(buf[4..8]);
      var head := ParseField(cfg, buf[..4], buf[8..8 + len], parent);
      FieldNests(cfg, buf[..4], buf[8..8 + len], parent, open);
      if head.ok {
        EventsNest(cfg, buf[8 + len..], parent, open);
        NestConcat(open, head.events, Parse(cfg, buf[8 + len..], parent).events);
      }
    }
  }

  lemma {:induction false} FieldNests(cfg: Config, code: seq<byte>, payload: seq<byte>, parent: Option<Field>,
                                      open: seq<seq<byte>>)
    ensures var o := ParseField(cfg, code, payload, parent);
            && Nest(open, o.events).Some?
            && (o.ok ==> Nest(open, o.events) == Some(open))
    decreases |payload|, 1
  {
    var kind := KindOf(cfg, code, payload, parent);
    if kind != Dict {
      LeafNests(cfg, kind, code, payload, open);
    } else {
      var inner := Parse(cfg, payload, FieldOf(cfg, code));
      EventsNest(cfg, payload, FieldOf(cfg, code), open + [code]);
      NestConcat(open, [DictStart(code)], inner.events);
      NestConcat(open, [DictStart(code)] + inner.events, [DictEnd(code)]);
      NestOne(open, code);
    }
  }

  lemma NestOne(open: seq<seq<byte>>, code: seq<byte>)
    ensures Nest(open, [DictStart(code)]) == Some(open + [code])
    ensures Nest(open + [code], [DictEnd(code)]) == Some(open)
  {
    assert (open + [code])[..|open|] == open;
  }

  lemma LeafNests(cfg: Config, kind: Kind, code: seq<byte>, payload: seq<byte>, open: seq<seq<byte>>)
    ensures Nest(open, LeafEvents(cfg, kind, code, payload)) == Some(open)
  {
    var events := LeafEvents(cfg, kind, code, payload);
    assert |events| <= 1;
    if events != [] {
      assert events[1..] == [];
    }
  }

  // ---------------------------------------------------------------- round trip

  // A message as its sender means it.
  datatype Tree =
    | Node(code: seq<byte>, items: seq<Tree>)
    | Number(code: seq<byte>, width: nat, u: nat)
    | Integer(code: seq<byte>, width: nat, i: int)
    | String(code: seq<byte>, bytes: seq<byte>)
    | Bytes(code: seq<byte>, bytes: seq<byte>)
    | Time(code: seq<byte>, seconds: nat)
    | Version(code: seq<byte>, major: nat, minor: nat)

  function Payload(t: Tree): seq<byte>
    decreases t, 0
  {
    match t
    case Node(_, items) => Encode(items)
    case Number(_, width, u) => BE(width, u)
    case Integer(_, width, i) => BE(width, if i >= 0 then i else Max(0, i + Range(width)))
    case String(_, bytes) => bytes
    case Bytes(_, bytes) => bytes
    case Time(_, seconds) => BE(4, seconds)
    case Version(_, major, minor) => BE(2, major) + BE(2, minor)
  }

  function Encode(ts: seq<Tree>): seq<byte>
    decreases ts, 1
  {
    if ts == [] then [] else Wire(Raw(ts[0].code, Payload(ts[0]))) + Encode(ts[1..])
  }

  function Meaning(t: Tree): seq<Event>
    decreases t, 0
  {
    match t
    case Node(code, items) => [DictStart(code)] + MeaningAll(items) + [DictEnd(code)]
    case Number(code, width, u) => if width == 8 then [UInt64(code, u)] else [UInt32(code, u)]
    case Integer(code, width, i) => if width == 8 then [Int64(code, i)] else [Int32(code, i)]
    case String(code, bytes) => [Text(code, bytes)]
    case Bytes(code, bytes) => [Blob(code, bytes)]
    case Time(code, seconds) => [DateAt(code, Some(seconds))]
    case Version(code, major, minor) => [Text(code, Decimal(major) + [46] + Decimal(minor))]
  }

  function MeaningAll(ts: seq<Tree>): seq<Event>
    decreases ts, 1
  {
    if ts == [] then [] else Meaning(ts[0]) + MeaningAll(ts[1..])
  }

  // The kind of field a tree needs its code to have.
  function KindFor(t: Tree): Kind {
    match t
    case Node(_, _) => Dict
    case Number(_, _, _) => UInt
    case Integer(_, _, _) => Int
    case String(_, _) => Str
    case Bytes(_, _) => Data
    case Time(_, _) => Date
    case Version(_, _, _) => Vers
  }

  // Values fit their widths; a one-byte integer is a plain char of the platform.
  predicate ValueFits(cfg: Config, t: Tree) {
    match t
    case Number(_, width, u) => width in {1, 2, 4, 8} && u < Range(width)
    case Integer(_, width, i) =>
      if width == 1 && !cfg.charSigned then 0 <= i < 256
      else width in {1, 2, 4, 8} && -Range(width) <= 2 * i < Range(width)
    case Time(_, seconds) => seconds < Range(4)
    case Version(_, major, minor) => major < Range(2) && minor < Range(2)
    case _ => true
  }

  // Every code is known with the kind its tree needs in the field it is in.
  ghost predicate WellFormed(cfg: Config, t: Tree, parent: Option<Field>)
    decreases t
  {
    && |t.code| == 4 && t.code in cfg.fields && KnownKind(cfg.fields[t.code], parent) == KindFor(t)
    && |Payload(t)| < Range(4) && ValueFits(cfg, t)
    && (t.Node? ==> forall child :: child in t.items ==> WellFormed(cfg, child, Some(cfg.fields[t.code])))
  }

  lemma LeafRoundTrip(cfg: Config, t: Tree, parent: Option<Field>)
    requires WellFormed(cfg, t, parent) && !t.Node?
    ensures LeafEvents(cfg, KindFor(t), t.code, Payload(t)) == Meaning(t)
  {
    hide BE, ReadBE, Range, Decimal;
    match t
    case Number(_, width, u) => ReadWritten(width, u);
    case Integer(_, width, i) => SignedRoundTrip(cfg, width, i);
    case Time(_, seconds) =>
      ReadWritten(4, seconds);
      assert BE(4, seconds)[..4] == BE(4, seconds);
    case Version(_, major, minor) => VersionRoundTrip(major, minor);
    case _ =>
  }

  lemma VersionRoundTrip(major: nat, minor: nat)
    requires major < Range(2) && minor < Range(2)
    ensures var p := BE(2, major) + BE(2, minor);
            ReadBE(p[..2]) == major && ReadBE(p[2..4]) == minor
  {
    ReadWritten(2, major);
    ReadWritten(2, minor);
    hide BE, ReadBE;
    var p := BE(2, major) + BE(2, minor);
    assert p[..2] == BE(2, major) && p[2..4] == BE(2, minor);
  }

  lemma SignedRoundTrip(cfg: Config, width: nat, i: int)
    requires width in {1, 2, 4, 8}
    requires if width == 1 && !cfg.charSigned then 0 <= i < 256 else -Range(width) <= 2 * i < Range(width)
    ensures var v := ReadBE(BE(width, if i >= 0 then i else Max(0, i + Range(width))));
            i == if width == 1 && !cfg.charSigned then v else Signed(width, v)
  {
    assert width == 1 ==> Range(width) == 256;
    ReadWritten(width, if i >= 0 then i else Max(0, i + Range(width)));
  }

  // Parsing what a sender wrote reports its values, in order, dictionaries nested as written.
  lemma {:induction false} RoundTrip(cfg: Config, ts: seq<Tree>, parent: Option<Field>)
    requires forall t :: t in ts ==> WellFormed(cfg, t, parent)
    ensures Parse(cfg, Encode(ts), parent) == Outcome(MeaningAll(ts), true)
    decreases ts, 1
  {
    if ts != [] {
      var t := ts[0];
      assert WellFormed(cfg, t, parent);
      FieldRoundTrip(cfg, t, parent);
      RoundTrip(cfg, ts[1..], parent);
      ParseWire(cfg, Raw(t.code, Payload(t)), Encode(ts[1..]), parent);
    }
  }

  lemma {:induction false} FieldRoundTrip(cfg: Config, t: Tree, parent: Option<Field>)
    requires WellFormed(cfg, t, parent)
    ensures ParseField(cfg, t.code, Payload(t), parent) == Outcome(Meaning(t), true)
    decreases t, 0
  {
    if t.Node? {
      RoundTrip(cfg, t.items, Some(cfg.fields[t.code]));
    } else {
      LeafRoundTrip(cfg, t, parent);
    }
  }

  // A one-byte integer comes back as meant exactly when plain char is signed or it is not negative.
  lemma OneByteInteger(cfg: Config, code: seq<byte>, i: int)
    requires -128 <= i < 128
    ensures LeafEvents(cfg, Int, code, Payload(Integer(code, 1, i))) == [Int32(code, i)]
       <==> cfg.charSigned || i >= 0
  {
    var u := if i >= 0 then i else i + 256;
    assert Range(1) == 256;
    ReadWritten(1, u);
    assert Payload(Integer(code, 1, i)) == BE(1, u);
  }
}
