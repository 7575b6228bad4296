/** components/platform_config/platform_config.c: what each call does to the entry it names, to the others, to the
    non-volatile storage and to the commit bit, in the caller's terms. */
module ConfigLaws {
  import opened ConfigCache
  import opened Wrappers

  // The kind and the value an entry has after a value of some kind was set for it: a string set for a
  // number is converted and keeps the number's kind, anything else is kept as it is.
  predicate Holds(c: Conversions, was: Option<Entry>, kind: Kind, v: Cell, e: Entry)
    requires Typed(kind, v)
  {
    if was.Some? && kind == Str && was.value.kind != Str then
      e.kind == was.value.kind && e.value == Double(c.atof(v.s))
    else
      && e.kind == kind
      && e.value == match kind
                    case Str => String(v.s)
                    case U64 => Missing
                    case I64 => Missing
                    case Blob => Missing
                    case _ => Double(v.n as real)
  }

  lemma NewEntryHolds(c: Conversions, was: Option<Entry>, kind: Kind, v: Cell)
    requires Typed(kind, v)
    ensures Holds(c, was, kind, v, NewEntry(c, was, kind, v))
  {
  }

  // Setting: the entry holds the value. When it did before nothing changes; else it is marked and the commit
  // bit goes down. NVS is left alone.
  lemma SetIs(c: Conversions, s: Config, kind: Kind, key: string, v: Cell)
    requires Typed(kind, v) && NoCaseClash(s.items, key)
    ensures var was, t := EntryAt(s.items, key), After(c, s, SetCall(kind, key, v));
            && t.nvs == s.nvs && EntryAt(t.items, key).Some? && Holds(c, was, kind, v, EntryAt(t.items, key).value)
            && (if was.Some? && Holds(c, was, kind, v, was.value) then t == s
                else EntryAt(t.items, key).value.chg && !t.noCommitPending)
  {
    var was, items' := EntryAt(s.items, key), SetItems(c, s.items, false, kind, key, v);
    var e := NewEntry(c, was, kind, v);
    NewEntryHolds(c, was, kind, v);
    SetAt(c, s.items, kind, key, v);
    var i := Find(s.items, key);
    HeldAlready(c, was, kind, v);
    if was.Some? {
      FoundSame(s.items, key);
    }
    hide Lower, Find, FindAnyCase, NewEntry;
    if was.None? || !Holds(c, was, kind, v, was.value) {
      assert items'[i].entry.chg;
      assert items' != s.items;
    }
  }

  lemma FoundSame(items: seq<Item>, key: string)
    requires NoCaseClash(items, key) && Find(items, key) < |items|
    ensures FindAnyCase(items, key) == Find(items, key)
  {
    AnyCaseNotAfter(items, key);
    ReplaceFindsSame(items, key);
  }

  lemma HeldAlready(c: Conversions, was: Option<Entry>, kind: Kind, v: Cell)
    requires Typed(kind, v)
    ensures was.Some? ==>
              (Holds(c, was, kind, v, was.value) <==> NewEntry(c, was, kind, v).(chg := was.value.chg) == was.value)
  {
  }

  // A default is set only for a key without an entry, and then marked; else nothing changes.
  lemma DefaultIs(c: Conversions, s: Config, kind: Kind, key: string, v: Cell)
    requires Typed(kind, v)
    ensures var t := After(c, s, DefaultCall(kind, key, v));
            if EntryAt(s.items, key).Some? then t == s
            else
              && t.nvs == s.nvs && !t.noCommitPending && |t.items| == |s.items| + 1 && t.items[..|s.items|] == s.items
              && t.items[|s.items|].key == key && t.items[|s.items|].entry.chg
              && Holds(c, None, kind, v, t.items[|s.items|].entry)
  {
    NewEntryHolds(c, None, kind, v);
    hide NewEntry, Find;
  }

  // Deleting: no entry has the key any more, the others stay as they were; NVS loses the key exactly when
  // the erase succeeds. The commit bit stays.
  lemma DeleteIs(c: Conversions, s: Config, key: string, erased: bool, other: string)
    requires Distinct(s.items) && other != key
    ensures var t := After(c, s, DeleteCall(key, erased));
            && EntryAt(t.items, key).None? && EntryAt(t.items, other) == EntryAt(s.items, other)
            && t.noCommitPending == s.noCommitPending
            && (key in t.nvs <==> key in s.nvs && !erased)
            && (other in t.nvs <==> other in s.nvs) && (other in s.nvs ==> t.nvs[other] == s.nvs[other])
  {
    WithoutKey(s.items, key);
    NotFound(Without(s.items, key), key);
    if Find(s.items, other) < |s.items| {
      OtherGone(s.items, key, other);
    } else {
      NotThere(s.items, key, other);
    }
  }

  lemma NotFound(items: seq<Item>, key: string)
    requires forall i :: 0 <= i < |items| ==> items[i].key != key
    ensures EntryAt(items, key).None?
  {
    hide Lower;
  }

  lemma NotThere(items: seq<Item>, key: string, other: string)
    requires Find(items, other) == |items|
    ensures EntryAt(Without(items, key), other).None?
  {
    hide Lower, Find;
    var rest := Without(items, key);
    if Find(items, key) < |items| {
      forall k | 0 <= k < |rest|
        ensures rest[k].key != other
      {
        WithoutAt(items, key, k);
      }
    }
    NotFound(rest, other);
  }

  // A commit: each marked entry whose value can be read and that NVS takes is stored under its key and unmarked; the
  // other entries stay as they are, and so do the other keys of NVS. The commit bit goes up.
  lemma CommitIs(c: Conversions, s: Config, stores: nat -> bool, i: nat)
    requires Distinct(s.items) && i < |s.items|
    ensures var x, t := s.items[i], After(c, s, CommitCall(stores));
            && t.noCommitPending && |t.items| == |s.items| && t.items[i].key == x.key
            && (if x.entry.chg && CellOf(c, x.entry).Some? && stores(i) then
                  && t.items[i].entry == x.entry.(chg := false)
                  && x.key in t.nvs && t.nvs[x.key] == Stored(x.entry.kind, CellOf(c, x.entry).value)
                else
                  && t.items[i] == x && (x.key in t.nvs <==> x.key in s.nvs)
                  && (x.key in s.nvs ==> t.nvs[x.key] == s.nvs[x.key]))
  {
    var done := CommitItems(c, s.items, stores, |s.items|);
    assert done[i] == CommitItem(c, s.items[i], stores(i));
    StoredAt(c, s.items, s.nvs, stores, i, |s.items|);
  }

  lemma {:induction false} StoredAt(c: Conversions, items: seq<Item>, nvs: map<string, Stored>, stores: nat -> bool,
                                    i: nat, n: nat)
    requires Distinct(items) && i < |items| && n <= |items|
    ensures var m, key := CommitNvs(c, items, nvs, stores, n), items[i].key;
            if i < n && CanStore(c, items[i], stores(i)) then
              key in m && m[key] == Stored(items[i].entry.kind, CellOf(c, items[i].entry).value)
            else
              (key in m <==> key in nvs) && (key in nvs ==> m[key] == nvs[key])
    decreases n
  {
    hide CellOf, Lower;
    if n > 0 {
      StoredAt(c, items, nvs, stores, i, n - 1);
      if n - 1 != i {
        assert items[n - 1].key != items[i].key by {
          assert Lower(items[n - 1].key) != Lower(items[i].key);
        }
      }
    }
  }

  lemma {:induction false} NotStored(c: Conversions, items: seq<Item>, nvs: map<string, Stored>, stores: nat -> bool,
                                     key: string, n: nat)
    requires n <= |items| && forall i :: 0 <= i < |items| ==> items[i].key != key
    ensures var m := CommitNvs(c, items, nvs, stores, n);
            (key in m <==> key in nvs) && (key in nvs ==> m[key] == nvs[key])
    decreases n
  {
    hide CellOf;
    if n > 0 {
      NotStored(c, items, nvs, stores, key, n - 1);
    }
  }

  // Reading a converted string back gives the number it spells, cast to the entry's kind.
  lemma ConvertedCell(c: Conversions, was: Entry, v: Cell)
    requires Typed(Str, v) && IsNumber(was.kind)
    ensures CellOf(c, NewEntry(c, Some(was), Str, v)) == Some(Number(c.cast(was.kind, c.atof(v.s))))
  {
  }

  // ---------------------------------------------------------------- a run

  // A name set, a default for it refused, another set by default and deleted; one commit stores the name alone.
  method Sample(conv: Conversions) returns (nvs: map<string, Stored>)
    ensures nvs == map["name" := Stored(Str, Text("kitchen"))]
  {
    hide Find, SetItems, Without, CommitItems, CommitNvs, NewEntry;
    var cache := new Cache(conv, map[]);
    FirstTwo(conv);
    cache.SetValue(Str, "name", Text("kitchen"));
    cache.SetDefault(Str, "name", Text("default"));
    assert cache.items == [Named];
    cache.SetDefault(Str, "other", Text("x"));
    cache.Delete("other", true);
    cache.Commit(i => true);
    nvs := cache.nvs;
    OneStored(conv);
  }

  const Named := Item("name", Entry(Str, String("kitchen"), true))

  const Other := Item("other", Entry(Str, String("x"), true))

  lemma FirstTwo(c: Conversions)
    ensures SetItems(c, [], false, Str, "name", Text("kitchen")) == [Named] && EntryAt([Named], "name").Some?
    ensures EntryAt([Named], "other").None? && SetItems(c, [Named], false, Str, "other", Text("x")) == [Named, Other]
    ensures Without([Named, Other], "other") == [Named]
  {
    hide Lower, FindAnyCase;
    assert Find([Named], "name") == 0;
    assert Find([Named], "other") == 1;
    assert Find([Named, Other], "other") == 1;
  }

  lemma OneStored(c: Conversions)
    ensures CommitNvs(c, [Named], map[], i => true, 1) == map["name" := Stored(Str, Text("kitchen"))]
  {
  }
}
