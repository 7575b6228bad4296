/** components/raop/dmap_parser.c: what is reported of fields whose code the table does not have, of items in
    listings, of numbers of odd widths, and how versions are spelled. */
module DmapLaws {
  import opened BigEndian
  import opened Dmap
  import opened Memory
  import opened Wrappers

  // ---------------------------------------------------------------- decimal digits

  // The number that some digits spell.
  function Spelled(s: seq<byte>): int {
    if s == [] then 0 else 10 * Spelled(s[..|s| - 1]) + s[|s| - 1] as int - '0' as int
  }

  // A number is spelled by digits without a zero in front.
  lemma {:induction false} DecimalSpells(n: nat)
    ensures var s := Decimal(n);
            && |s| >= 1 && Spelled(s) == n && (forall i :: 0 <= i < |s| ==> '0' as int <= s[i] as int <= '9' as int)
            && (s[0] as int == '0' as int ==> n == 0)
  {
    var s := Decimal(n);
    if n >= 10 {
      DecimalSpells(n / 10);
      assert s[..|s| - 1] == Decimal(n / 10);
    } else {
      assert s[..0] == [];
    }
  }

  // ---------------------------------------------------------------- codes that are not known

  predicate Letter(b: byte) {
    'A' as int <= b as int <= 'Z' as int || 'a' as int <= b as int <= 'z' as int
  }

  predicate Printable(b: byte) {
    ' ' as int <= b as int <= '~' as int
  }

  // The payload begins like a field: four letters and a length below the payload's own.
  predicate LooksLikeField(p: seq<byte>) {
    && |p| >= 8 && Letter(p[0]) && Letter(p[1]) && Letter(p[2]) && Letter(p[3])
    && 0x100_0000 * p[4] as int + 0x1_0000 * p[5] as int + 0x100 * p[6] as int + p[7] as int < |p|
  }

  lemma LooksIs(p: seq<byte>)
    ensures GuessedKind(p) == (if LooksLikeField(p) then Dict
                               else if forall b :: b in p ==> Printable(b) then Str
                               else UInt)
  {
    hide ReadBE;
    if |p| >= 8 {
      assert p[4..8] == [p[4], p[5], p[6], p[7]];
      TwoAndFour(p[4], p[5], p[6], p[7]);
    }
    assert forall b :: IsPrint(b) == Printable(b) && IsAlpha(b) == Letter(b);
  }

  // A field with an unknown code is a dictionary exactly when its payload looks like a field; else it is text when
  // every byte can be printed, and a number or raw bytes when not.
  lemma UnknownCode(cfg: Config, code: seq<byte>, p: seq<byte>, parent: Option<Field>)
    requires code !in cfg.fields
    ensures ParseField(cfg, code, p, parent) ==
            if LooksLikeField(p) then
              var inner := Parse(cfg, p, None);
              Outcome([DictStart(code)] + inner.events + (if inner.ok then [DictEnd(code)] else []), inner.ok)
            else if forall b :: b in p ==> Printable(b) then Outcome([Text(code, p)], true)
            else Outcome([if |p| in {1, 2, 4} then UInt32(code, ReadBE(p))
                          else if |p| == 8 then UInt64(code, ReadBE(p))
                          else Blob(code, p)], true)
  {
    hide ReadBE, Parse, LooksLikeField, GuessedKind, Printable;
    LooksIs(p);
    var inner := Parse(cfg, p, None);
    assert [DictStart(code)] + inner.events + [] == [DictStart(code)] + inner.events;
  }

  // So fields with codes of letters in a container with an unknown code come back nested in it.
  lemma UnknownContainer(cfg: Config, code: seq<byte>, ts: seq<Tree>, parent: Option<Field>)
    requires code !in cfg.fields && ts != [] && forall t :: t in ts ==> WellFormed(cfg, t, None)
    requires |ts[0].code| == 4 && forall i :: 0 <= i < 4 ==> Letter(ts[0].code[i])
    ensures ParseField(cfg, code, Encode(ts), parent)
         == Outcome([DictStart(code)] + MeaningAll(ts) + [DictEnd(code)], true)
  {
    hide BE, ReadBE, Parse, ParseField, LooksLikeField, Payload, MeaningAll, Range, KnownKind, ValueFits;
    assert WellFormed(cfg, ts[0], None);
    RoundTrip(cfg, ts, None);
    FirstLooks(ts[0].code, Payload(ts[0]), Encode(ts[1..]));
    UnknownCode(cfg, code, Encode(ts), parent);
  }

  lemma FirstLooks(code: seq<byte>, payload: seq<byte>, rest: seq<byte>)
    requires |code| == 4 && |payload| < Range(4) && forall i :: 0 <= i < 4 ==> Letter(code[i])
    ensures LooksLikeField(Wire(Raw(code, payload)) + rest)
  {
    hide BE, ReadBE, Range, Letter;
    var p := Wire(Raw(code, payload)) + rest;
    ReadWritten(4, |payload|);
    assert p[4..8] == BE(4, |payload|) == [p[4], p[5], p[6], p[7]];
    TwoAndFour(p[4], p[5], p[6], p[7]);
  }

  // ---------------------------------------------------------------- known codes

  // An item has the type its listing gives its items: of strings, of numbers; a dictionary without one.
  lemma ItemsTyped(cfg: Config, code: seq<byte>, p: seq<byte>, parent: Option<Field>)
    requires code in cfg.fields && cfg.fields[code].kind == Item
    ensures parent.Some? && parent.value.listItem == Str ==>
              ParseField(cfg, code, p, parent) == Outcome([Text(code, p)], true)
    ensures parent.Some? && parent.value.listItem == UInt && |p| in {1, 2, 4} ==>
              ParseField(cfg, code, p, parent) == Outcome([UInt32(code, ReadBE(p))], true)
    ensures parent.None? || parent.value.listItem in {Unknown, Dict} ==>
              var inner := Parse(cfg, p, Some(cfg.fields[code]));
              ParseField(cfg, code, p, parent) ==
              Outcome([DictStart(code)] + inner.events + (if inner.ok then [DictEnd(code)] else []), inner.ok)
  {
    hide ReadBE, Parse;
    var inner := Parse(cfg, p, Some(cfg.fields[code]));
    assert [DictStart(code)] + inner.events + [] == [DictStart(code)] + inner.events;
  }

  // Numbers of other widths are raw bytes; a version too short is not reported.
  lemma OddWidths(cfg: Config, code: seq<byte>, p: seq<byte>, parent: Option<Field>)
    requires code in cfg.fields
    ensures cfg.fields[code].kind in {UInt, Int} && |p| !in {1, 2, 4, 8} ==>
              ParseField(cfg, code, p, parent) == Outcome([Blob(code, p)], true)
    ensures cfg.fields[code].kind == Vers && |p| < 4 ==> ParseField(cfg, code, p, parent) == Outcome([], true)
    ensures cfg.fields[code].kind == Unknown ==> ParseField(cfg, code, p, parent) == Outcome([], true)
  {
    hide ReadBE;
  }
}
