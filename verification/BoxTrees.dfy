/** Files as ISO/IEC 14496-12 lays them out, boxes inside boxes, and what read_mp4_header of
    components/squeezelite/alac.c makes of them. */
module BoxTrees {
  import opened BigEndian
  import opened BoxFiles
  import opened BoxPolls
  import opened BoxWalk
  import opened Memory
  import opened StreamFifo

  // A box with a payload, or one that holds others behind its header and some bytes of its own.
  datatype Tree = Leaf(name: string, payload: seq<byte>) | Holder(name: string, lead: seq<byte>, children: seq<Tree>)

  // The boxes the reader looks into, by the bytes in front of what they hold: their header of eight, and
  // the fields of a sample description table, of an audio sample entry, or of a meta box.
  predicate Holds(name: string, start: nat) {
    || (start == 8 && name in ["moov", "trak", "mdia", "minf", "stbl", "udta", "ilst"])
    || (start == 16 && name == "stsd")
    || (start == 36 && name == "mp4a")
    || (start == 12 && name == "meta")
  }

  predicate HoldsNothing(name: string) {
    Named(name) && name != "mdat" && !Holds(name, 8) && !Holds(name, 16) && !Holds(name, 36) && !Holds(name, 12)
  }

  function Wire(t: Tree): seq<byte>
    decreases t, 0
  {
    match t
    case Leaf(name, payload) => if Named(name) then Box(name, payload) else []
    case Holder(name, lead, children) => if Named(name) then Box(name, lead + WireAll(children)) else []
  }

  function WireAll(ts: seq<Tree>): seq<byte>
    decreases ts, 1
  {
    if ts == [] then [] else Wire(ts[0]) + WireAll(ts[1..])
  }

  ghost predicate Good(t: Tree)
    decreases t
  {
    && |Wire(t)| < 0x1_0000_0000
    && match t
       case Leaf(name, _) => HoldsNothing(name)
       case Holder(name, lead, children) =>
         Holds(name, 8 + |lead|) && forall c :: c in children ==> Good(c)
  }

  ghost predicate AllGood(ts: seq<Tree>) {
    forall t :: t in ts ==> Good(t)
  }

  // A box comes before the boxes it holds, and they before the next.
  function Preorder(ts: seq<Tree>): seq<Tree>
    decreases ts
  {
    if ts == [] then []
    else [ts[0]] + (if ts[0].Holder? then Preorder(ts[0].children) else []) + Preorder(ts[1..])
  }

  // ---------------------------------------------------------------- one box

  lemma NamesInside(name: string)
    requires name in ["moov", "trak", "mdia", "minf", "stbl", "udta", "ilst"]
    ensures Named(name) && KindOf(name) in {Moov, Trak, Inside}
  {
  }

  lemma HolderStep(name: string, start: nat, len: nat)
    requires Holds(name, start)
    ensures Named(name) && StepOver(KindOf(name), len) == start && KindOf(name) != Mdat
  {
    if start == 8 {
      NamesInside(name);
    }
  }

  lemma LeafStep(name: string, len: nat)
    requires HoldsNothing(name)
    ensures StepOver(KindOf(name), len) == len && KindOf(name) != Mdat
  {
  }

  // The bytes in front of the next box visited.
  function Reach(t: Tree): nat {
    match t
    case Leaf(_, payload) => 8 + |payload|
    case Holder(_, lead, _) => 8 + |lead|
  }

  lemma WireHead(t: Tree)
    requires Good(t)
    ensures |Wire(t)| >= 8
    ensures LenOf(Wire(t)[..8]) == |Wire(t)| && KindIn(Wire(t)[..8]) == KindOf(t.name)
    ensures KindOf(t.name) != Mdat && StepOver(KindOf(t.name), |Wire(t)|) == Reach(t) <= |Wire(t)|
  {
    hide LenOf, KindIn, KindOf, Box, StepOver, HoldsNothing, Holds, Range;
    LengthRange();
    match t
    case Leaf(name, payload) =>
      LeafStep(name, |Wire(t)|);
      LeafNamed(name);
      BoxHead(name, payload);
    case Holder(name, lead, children) =>
      HolderStep(name, 8 + |lead|, |Wire(t)|);
      BoxHead(name, lead + WireAll(children));
  }

  lemma LengthRange()
    ensures Range(4) == 0x1_0000_0000
  {
  }

  lemma LeafNamed(name: string)
    requires HoldsNothing(name)
    ensures Named(name)
  {
  }

  // ---------------------------------------------------------------- the boxes visited

  // The boxes bs are visited one after the other from the k-th on.
  ghost predicate VisitedFrom(file: seq<byte>, k: nat, ts: seq<Tree>) {
    forall n :: 0 <= n < |ts| ==> VisitedAt(file, k + n, ts[n])
  }

  ghost predicate VisitedAt(file: seq<byte>, k: nat, t: Tree) {
    && BoxStart(file, k) + |Wire(t)| <= |file| && |Wire(t)| >= 8
    && file[BoxStart(file, k)..BoxStart(file, k) + |Wire(t)|] == Wire(t)
  }

  lemma VisitsOne(file: seq<byte>, k: nat, t: Tree)
    requires Good(t) && VisitedAt(file, k, t)
    ensures BoxStart(file, k + 1) == BoxStart(file, k) + Reach(t)
    ensures HeadAt(file, BoxStart(file, k)) == Wire(t)[..8] && BodyAt(file, BoxStart(file, k)) == Wire(t)
    ensures Passable(file, k) && End(file, k) == BoxStart(file, k) + |Wire(t)|
  {
    hide LenOf, KindIn, KindOf, StepOver, Wire, Good;
    WireHead(t);
    var p := BoxStart(file, k);
    assert file[p..p + |Wire(t)|][..8] == file[p..p + 8];
  }

  // Where the k-th box starts the trees ts are written: their boxes are visited in preorder, and then what
  // lies behind them.
  lemma {:induction false} VisitsAll(file: seq<byte>, k: nat, ts: seq<Tree>)
    requires AllGood(ts) && BoxStart(file, k) + |WireAll(ts)| <= |file|
    requires file[BoxStart(file, k)..BoxStart(file, k) + |WireAll(ts)|] == WireAll(ts)
    ensures VisitedFrom(file, k, Preorder(ts))
    ensures BoxStart(file, k + |Preorder(ts)|) == BoxStart(file, k) + |WireAll(ts)|
    decreases ts, 0
  {
    hide Wire, WireAll, Preorder, Good, BoxStart, StepOver, KindOf;
    Steps(ts);
    if ts != [] {
      var t, rest := ts[0], ts[1..];
      var p := BoxStart(file, k);
      assert Good(t);
      WireHead(t);
      Slices(file, p, Wire(t), WireAll(rest));
      assert VisitedAt(file, k, t);
      VisitsOne(file, k, t);
      var inner := if t.Holder? then Preorder(t.children) else [];
      if t.Holder? {
        VisitsInside(file, k, t);
      } else {
        LeafReach(t);
      }
      VisitsAll(file, k + 1 + |inner|, rest);
      InOrder(file, k, t, inner, Preorder(rest));
    }
  }

  lemma Steps(ts: seq<Tree>)
    ensures ts == [] ==> WireAll(ts) == [] && Preorder(ts) == []
    ensures ts != [] ==>
              && WireAll(ts) == Wire(ts[0]) + WireAll(ts[1..])
              && Preorder(ts)
                 == [ts[0]] + (if ts[0].Holder? then Preorder(ts[0].children) else []) + Preorder(ts[1..])
  {
    hide Wire;
  }

  lemma {:induction false} VisitsInside(file: seq<byte>, k: nat, t: Tree)
    requires Good(t) && t.Holder? && VisitedAt(file, k, t)
    ensures VisitedFrom(file, k + 1, Preorder(t.children))
    ensures BoxStart(file, k + 1 + |Preorder(t.children)|) == BoxStart(file, k) + |Wire(t)|
    decreases t, 1
  {
    hide BoxStart, Box, KindOf, Holds;
    var p := BoxStart(file, k);
    VisitsOne(file, k, t);
    HolderBytes(t);
    var w, q := Wire(t), 8 + |t.lead|;
    assert file[p + q..p + |w|] == file[p..p + |w|][q..];
    VisitsAll(file, k + 1, t.children);
  }

  lemma HolderBytes(t: Tree)
    requires Good(t) && t.Holder?
    ensures AllGood(t.children) && |Wire(t)| == 8 + |t.lead| + |WireAll(t.children)|
    ensures Wire(t)[8 + |t.lead|..] == WireAll(t.children)
  {
    HolderStep(t.name, 8 + |t.lead|, 0);
    hide Holds, KindOf, StepOver;
    HeldBytes(t.name, t.lead, WireAll(t.children));
  }

  lemma HeldBytes(name: string, lead: seq<byte>, inner: seq<byte>)
    requires Named(name)
    ensures Box(name, lead + inner)[8 + |lead|..] == inner
  {
    hide BE;
    assert Box(name, lead + inner)[8..] == lead + inner;
  }

  lemma LeafReach(t: Tree)
    requires Good(t) && t.Leaf?
    ensures |Wire(t)| == Reach(t)
  {
    LeafNamed(t.name);
    hide HoldsNothing;
  }

  lemma Slices(file: seq<byte>, p: nat, a: seq<byte>, b: seq<byte>)
    requires p + |a + b| <= |file| && file[p..p + |a + b|] == a + b
    ensures file[p..p + |a|] == a && file[p + |a|..p + |a| + |b|] == b
  {
    assert file[p..p + |a|] == (a + b)[..|a|];
    assert file[p + |a|..p + |a| + |b|] == (a + b)[|a|..];
  }

  lemma InOrder(file: seq<byte>, k: nat, t: Tree, inner: seq<Tree>, rest: seq<Tree>)
    requires VisitedAt(file, k, t) && VisitedFrom(file, k + 1, inner) && VisitedFrom(file, k + 1 + |inner|, rest)
    ensures VisitedFrom(file, k, [t] + inner + rest)
  {
    hide VisitedAt;
    var all := [t] + inner + rest;
    forall n | 0 <= n < |all|
      ensures VisitedAt(file, k + n, all[n])
    {
      if 1 <= n <= |inner| {
        assert VisitedAt(file, k + 1 + (n - 1), inner[n - 1]);
      } else if n > |inner| {
        var m := n - 1 - |inner|;
        assert VisitedAt(file, k + 1 + |inner| + m, rest[m]);
      }
    }
  }

  // ---------------------------------------------------------------- the header

  function BytesOf(ts: seq<Tree>): (bs: seq<seq<byte>>)
    ensures |bs| == |ts|
  {
    seq(|ts|, i requires 0 <= i < |ts| => Wire(ts[i]))
  }

  lemma {:induction false} PreorderGood(ts: seq<Tree>)
    requires AllGood(ts)
    ensures AllGood(Preorder(ts))
    decreases ts
  {
    hide Wire, Holds, HoldsNothing;
    if ts != [] {
      assert Good(ts[0]);
      if ts[0].Holder? {
        PreorderGood(ts[0].children);
      }
      PreorderGood(ts[1..]);
    }
  }

  lemma LongEnoughAll(ts: seq<Tree>)
    requires AllGood(ts)
    ensures forall i :: 0 <= i < |ts| ==> |BytesOf(ts)[i]| >= 8
  {
    forall i | 0 <= i < |ts|
      ensures |BytesOf(ts)[i]| >= 8
    {
      WireHead(ts[i]);
    }
  }

  // What is remembered of a file is what its boxes say, whole and in preorder, containers entered.
  lemma TreeHeader(ts: seq<Tree>, rest: seq<byte>)
    requires AllGood(ts)
    ensures var file, boxes := WireAll(ts) + rest, Preorder(ts);
            && BoxStart(file, |boxes|) == |WireAll(ts)| && VisitedFrom(file, 0, boxes)
            && (forall i :: 0 <= i < |boxes| ==> |BytesOf(boxes)[i]| >= 8)
            && HeaderOf(file, |boxes|) == VisitAll(BytesOf(boxes))
  {
    hide Wire, Good, Preorder, WireAll, VisitedFrom, BoxStart, VisitAll, HeaderOf;
    var file := WireAll(ts) + rest;
    NoBoxBefore(file, 0);
    assert file[0..0 + |WireAll(ts)|] == WireAll(ts);
    VisitsAll(file, 0, ts);
    PreorderGood(ts);
    LongEnoughAll(Preorder(ts));
    HeaderFrom(file, Preorder(ts), |Preorder(ts)|);
    assert BytesOf(Preorder(ts))[..|Preorder(ts)|] == BytesOf(Preorder(ts));
  }

  lemma NoBoxBefore(file: seq<byte>, n: nat)
    requires n == 0
    ensures BoxStart(file, n) == 0
  {
  }

  lemma {:induction false} HeaderFrom(file: seq<byte>, boxes: seq<Tree>, n: nat)
    requires AllGood(boxes) && VisitedFrom(file, 0, boxes) && n <= |boxes|
    requires forall i :: 0 <= i < |boxes| ==> |BytesOf(boxes)[i]| >= 8
    ensures HeaderOf(file, n) == VisitAll(BytesOf(boxes)[..n])
    decreases n
  {
    hide Visit, KindIn, LenOf, StepOver, Wire, Good, BoxStart;
    if n > 0 {
      HeaderFrom(file, boxes, n - 1);
      assert VisitedAt(file, 0 + (n - 1), boxes[n - 1]);
      VisitsOne(file, n - 1, boxes[n - 1]);
      assert seq(n, i => true)[..n - 1] == seq(n - 1, i => true);
      assert BytesOf(boxes)[..n][..n - 1] == BytesOf(boxes)[..n - 1];
    }
  }

  // A file of trees and one more box is sane.
  lemma TreeSane(ts: seq<Tree>, rest: seq<byte>)
    requires AllGood(ts) && |rest| >= 8 && LenOf(rest[..8]) == |rest| && KindIn(rest[..8]) == Mdat
    ensures Sane(WireAll(ts) + rest)
  {
    hide LenOf, KindIn, StepOver, Wire, Good, Preorder, WireAll;
    var file, m := WireAll(ts) + rest, |Preorder(ts)|;
    TreeHeader(ts, rest);
    PreorderGood(ts);
    assert HeadAt(file, |WireAll(ts)|) == rest[..8];
    MdatStep(|rest|);
    assert BoxStart(file, m + 1) == |file|;
    forall n: nat | BoxStart(file, n) + 8 <= |file|
      ensures LenOf(HeadAt(file, BoxStart(file, n))) >= 8
    {
      if n < m {
        assert VisitedAt(file, 0 + n, Preorder(ts)[n]);
        VisitsOne(file, n, Preorder(ts)[n]);
      } else if n > m {
        StartsGrow(file, m + 1, n);
      }
    }
  }

  lemma MdatStep(len: nat)
    ensures StepOver(Mdat, len) == len
  {
  }

  // One call that finds everything up to the media data in one piece reads every box, inside the containers
  // too, and stops at the media data, or at the first chunk if that is there.
  lemma TreeScan(ts: seq<Tree>, rest: seq<byte>, size: nat, s: Spot, bytes: nat, grant: Grant)
    requires AllGood(ts) && |rest| >= 8 && KindIn(rest[..8]) == Mdat
    requires Ready(WireAll(ts) + rest, size, s) && s.consume == 0 && bytes <= Seen(s, size) && Bounded(grant)
    requires s.whole == [] && s.pos + bytes >= |WireAll(ts)| + 8
    requires HeaderOf(WireAll(ts) + rest, |Preorder(ts)|).play > 0
    ensures var t := Scan(WireAll(ts) + rest, size, s, bytes, grant);
            var h := HeaderOf(WireAll(ts) + rest, |Preorder(ts)|);
            var q := DataStart(h, |WireAll(ts)|);
            && t.whole == seq(|Preorder(ts)|, i => true) && t.found == Data && t.arrived == s.arrived
            && t.pos == if q <= s.pos + bytes then q else |WireAll(ts)| + 8
  {
    hide LenOf, KindIn, StepOver, Wire, Good, Preorder, WireAll, Scan, Seen, BoxStart, DataStart, HeaderOf, Visit;
    var file, boxes := WireAll(ts) + rest, Preorder(ts);
    TreeHeader(ts, rest);
    PreorderGood(ts);
    forall n | 0 <= n < |boxes|
      ensures Passable(file, n) && End(file, n) < s.pos + bytes
    {
      assert VisitedAt(file, 0 + n, boxes[n]);
      VisitsOne(file, n, boxes[n]);
      EndsInside(ts, rest, n);
    }
    assert HeadAt(file, |WireAll(ts)|) == rest[..8];
    ScanThrough(file, size, s, bytes, grant, |boxes|);
  }

  // No box ends behind the trees.
  lemma EndsInside(ts: seq<Tree>, rest: seq<byte>, n: nat)
    requires AllGood(ts) && n < |Preorder(ts)|
    ensures var file := WireAll(ts) + rest;
            BoxStart(file, n) + |Wire(Preorder(ts)[n])| <= |WireAll(ts)|
  {
    hide Wire, Good, Preorder, WireAll, BoxStart;
    var file := WireAll(ts);
    TreeHeader(ts, []);
    TreeHeader(ts, rest);
    assert WireAll(ts) + [] == WireAll(ts);
    assert VisitedAt(file, 0 + n, Preorder(ts)[n]);
    SameStart(ts, rest, n);
  }

  lemma StartBehind(ts: seq<Tree>, rest: seq<byte>, n: nat)
    requires AllGood(ts) && n < |Preorder(ts)|
    ensures var file := WireAll(ts) + rest;
            BoxStart(file, n + 1) == BoxStart(file, n) + Reach(Preorder(ts)[n])
  {
    hide Wire, Good, Preorder, WireAll, BoxStart, HeaderOf, VisitAll;
    TreeHeader(ts, rest);
    PreorderGood(ts);
    assert VisitedAt(WireAll(ts) + rest, 0 + n, Preorder(ts)[n]);
    VisitsOne(WireAll(ts) + rest, n, Preorder(ts)[n]);
  }

  // Where box n starts does not depend on what lies behind the trees.
  lemma {:induction false} SameStart(ts: seq<Tree>, rest: seq<byte>, n: nat)
    requires AllGood(ts) && n <= |Preorder(ts)|
    ensures BoxStart(WireAll(ts) + rest, n) == BoxStart(WireAll(ts), n)
    decreases n
  {
    hide Wire, Good, Preorder, WireAll, BoxStart;
    if n == 0 {
      NoBoxBefore(WireAll(ts) + rest, 0);
      NoBoxBefore(WireAll(ts), 0);
    } else {
      SameStart(ts, rest, n - 1);
      assert WireAll(ts) + [] == WireAll(ts);
      StartBehind(ts, [], n - 1);
      StartBehind(ts, rest, n - 1);
    }
  }
}
