/** components/platform_config/platform_config.c: the configuration cache in front of the
    non-volatile storage (NVS), written behind by a timer. The JSON object is the list of its
    members; every operation runs under the configuration lock, so it is one step. */
module ConfigCache {
  import opened Wrappers

  datatype Kind = U8 | I8 | U16 | I16 | U32 | I32 | U64 | I64 | Str | Blob

  // What a caller hands in, and what NVS stores.
  datatype Cell = Number(n: int) | Text(s: string)

  // The "value" member of an entry: cJSON keeps numbers as doubles.
  datatype Value = Double(d: real) | String(s: string) | Missing

  datatype Entry = Entry(kind: Kind, value: Value, chg: bool)

  datatype Item = Item(key: string, entry: Entry)

  datatype Stored = Stored(kind: Kind, cell: Cell)

  predicate IsNumber(k: Kind) {
    k in {U8, I8, U16, I16, U32, I32}
  }

  // Types the cache can hold: 64-bit numbers and blobs are refused.
  predicate Supported(k: Kind) {
    IsNumber(k) || k == Str
  }

  predicate InRange(k: Kind, n: int) {
    match k
    case U8 => 0 <= n < 0x100
    case I8 => -0x80 <= n < 0x80
    case U16 => 0 <= n < 0x1_0000
    case I16 => -0x8000 <= n < 0x8000
    case U32 => 0 <= n < 0x1_0000_0000
    case I32 => -0x8000_0000 <= n < 0x8000_0000
    case _ => false
  }

  // What C types guarantee about the value passed with a kind.
  predicate Typed(k: Kind, v: Cell) {
    if IsNumber(k) then v.Number? && InRange(k, v.n) else k == Str ==> v.Text?
  }

  // ---------------------------------------------------------------- keys

  function Lower(s: string): (t: string)
    ensures |t| == |s|
  {
    seq(|s|, i requires 0 <= i < |s| => if 'A' <= s[i] <= 'Z' then s[i] + (' ' as int) as char else s[i])
  }

  // The first member with exactly this key; |items| when there is none.
  function Find(items: seq<Item>, key: string): (i: nat)
    ensures i <= |items|
    ensures i < |items| ==> items[i].key == key
    ensures forall k :: 0 <= k < i ==> items[k].key != key
  {
    if items == [] || items[0].key == key then 0 else 1 + Find(items[1..], key)
  }

  // The first member with this key in any case, as cJSON_ReplaceItemInObject looks it up.
  function FindAnyCase(items: seq<Item>, key: string): (i: nat)
    ensures i <= |items|
    ensures i < |items| ==> Lower(items[i].key) == Lower(key)
    ensures forall k :: 0 <= k < i ==> Lower(items[k].key) != Lower(key)
  {
    if items == [] || Lower(items[0].key) == Lower(key) then 0 else 1 + FindAnyCase(items[1..], key)
  }

  lemma AnyCaseNotAfter(items: seq<Item>, key: string)
    requires Find(items, key) < |items|
    ensures FindAnyCase(items, key) <= Find(items, key)
  {
    assert Lower(items[Find(items, key)].key) == Lower(key);
  }

  ghost predicate Distinct(items: seq<Item>) {
    forall i, j :: 0 <= i < j < |items| ==> Lower(items[i].key) != Lower(items[j].key)
  }

  // The members after the one with this key is taken out.
  function Without(items: seq<Item>, key: string): (rest: seq<Item>) {
    var i := Find(items, key);
    if i < |items| then items[..i] + items[i + 1..] else items
  }

  lemma WithoutKey(items: seq<Item>, key: string)
    requires Distinct(items)
    ensures Distinct(Without(items, key))
    ensures forall j :: 0 <= j < |Without(items, key)| ==> Without(items, key)[j].key != key
  {
    var i := Find(items, key);
    var rest := Without(items, key);
    hide Lower, Find;
    if i < |items| {
      forall j | 0 <= j < |rest|
        ensures rest[j].key != key
      {
        assert rest[j] == items[if j < i then j else j + 1];
      }
    }
  }

  // An update reaches the member it looked up exactly when no earlier key differs only in case.
  lemma ReplaceFindsSame(items: seq<Item>, key: string)
    requires Find(items, key) < |items|
    ensures FindAnyCase(items, key) == Find(items, key)
       <==> forall k :: 0 <= k < Find(items, key) ==> Lower(items[k].key) != Lower(key)
  {
  }

  // ---------------------------------------------------------------- entries

  // The C conversions: atof, and from double to the integer type of a kind.
  datatype Conversions = Conversions(atof: string -> real, cast: (Kind, real) -> int)

  // Whole numbers in range survive the trip through a double.
  ghost predicate Faithful(c: Conversions) {
    forall k: Kind, n: int :: InRange(k, n) ==> c.cast(k, n as real) == n
  }

  // config_safe_alloc_get_entry_value with the entry's own type.
  function CellOf(c: Conversions, e: Entry): Option<Cell> {
    if e.value.Missing? then None
    else match e.kind
      case Blob => None
      case Str => if e.value.String? then Some(Text(e.value.s)) else None
      case _ => Some(Number(c.cast(e.kind, if e.value.Double? then e.value.d else 0.0)))
  }

  // The entry config_set_value_safe builds, before its flag: a string given for a numeric
  // entry is converted, an unsupported type gets no value.
  function NewEntry(c: Conversions, existing: Option<Entry>, kind: Kind, v: Cell): Entry
    requires Typed(kind, v)
  {
    if existing.Some? && kind == Str && existing.value.kind != Str then
      Entry(existing.value.kind, Double(c.atof(v.s)), false)
    else if IsNumber(kind) then Entry(kind, Double(v.n as real), false)
    else if kind == Str then Entry(kind, String(v.s), false)
    else Entry(kind, Missing, false)
  }

  lemma NewEntryCell(c: Conversions, existing: Option<Entry>, kind: Kind, v: Cell)
    requires Faithful(c) && Typed(kind, v) && Supported(kind)
    requires existing.Some? ==> Supported(existing.value.kind)
    ensures var e := NewEntry(c, existing, kind, v);
            && Supported(e.kind) && CellOf(c, e).Some?
            && (existing.None? || kind != Str || existing.value.kind == Str ==>
                  e.kind == kind && CellOf(c, e) == Some(v))
  {
  }

  // What NVS has under the member's key is what the member holds.
  ghost predicate Clean(c: Conversions, nvs: map<string, Stored>, x: Item) {
    && x.key in nvs && nvs[x.key].kind == x.entry.kind
    && CellOf(c, x.entry) == Some(nvs[x.key].cell)
  }

  // The promise of the cache: a member whose flag is down is what NVS has.
  ghost predicate Consistent(c: Conversions, items: seq<Item>, nvs: map<string, Stored>) {
    Distinct(items) && forall i :: 0 <= i < |items| && !items[i].entry.chg ==> Clean(c, nvs, items[i])
  }

  ghost predicate NothingChanged(items: seq<Item>) {
    forall i :: 0 <= i < |items| ==> !items[i].entry.chg
  }

  // Members whose value can be read back, and so be stored.
  ghost predicate Storable(c: Conversions, items: seq<Item>) {
    forall i :: 0 <= i < |items| ==> CellOf(c, items[i].entry).Some? && Supported(items[i].entry.kind)
  }

  // ---------------------------------------------------------------- calls

  // The cache between two calls: members, storage and the commit bit.
  datatype Config = Config(items: seq<Item>, nvs: map<string, Stored>, noCommitPending: bool)

  datatype Call =
    | SetCall(kind: Kind, key: string, v: Cell)
    | DefaultCall(kind: Kind, key: string, v: Cell)
    | DeleteCall(key: string, erased: bool)
    | CommitCall(stores: nat -> bool)

  predicate TypedCall(c: Call) {
    match c
    case SetCall(kind, _, v) => Typed(kind, v)
    case DefaultCall(kind, _, v) => Typed(kind, v)
    case _ => true
  }

  function EntryAt(items: seq<Item>, key: string): Option<Entry> {
    var i := Find(items, key);
    if i < |items| then Some(items[i].entry) else None
  }

  // config_set_value_safe: a new member, the same members, or one replaced, flagged unless loading.
  function SetItems(c: Conversions, items: seq<Item>, loading: bool, kind: Kind, key: string, v: Cell): seq<Item>
    requires Typed(kind, v)
  {
    var was := EntryAt(items, key);
    var e := NewEntry(c, was, kind, v);
    if was.None? then items + [Item(key, e.(chg := !loading))]
    else if e.(chg := was.value.chg) == was.value then items
    else
      AnyCaseNotAfter(items, key);
      items[FindAnyCase(items, key) := Item(key, e.(chg := !loading))]
  }

  predicate CanStore(c: Conversions, x: Item, taken: bool) {
    x.entry.chg && CellOf(c, x.entry).Some? && taken
  }

  // One turn of the loop of config_commit_to_nvs.
  function CommitItem(c: Conversions, x: Item, taken: bool): Item {
    if CanStore(c, x, taken) then Item(x.key, x.entry.(chg := false)) else x
  }

  function CommitItems(c: Conversions, items: seq<Item>, stores: nat -> bool, n: nat): (done: seq<Item>)
    requires n <= |items|
    ensures |done| == |items|
  {
    seq(|items|, i requires 0 <= i < |items| => if i < n then CommitItem(c, items[i], stores(i)) else items[i])
  }

  // NVS after the first n members are done.
  function CommitNvs(c: Conversions, items: seq<Item>, nvs: map<string, Stored>, stores: nat -> bool, n: nat):
      map<string, Stored>
    requires n <= |items|
  {
    if n == 0 then nvs
    else
      var m := CommitNvs(c, items, nvs, stores, n - 1);
      var x := items[n - 1];
      if CanStore(c, x, stores(n - 1)) then m[x.key := Stored(x.entry.kind, CellOf(c, x.entry).value)] else m
  }

  function After(c: Conversions, s: Config, call: Call): Config
    requires TypedCall(call)
  {
    match call
    case SetCall(kind, key, v) =>
      var items := SetItems(c, s.items, false, kind, key, v);
      Config(items, s.nvs, s.noCommitPending && items == s.items)
    case DefaultCall(kind, key, v) =>
      if EntryAt(s.items, key).Some? then s
      else Config(SetItems(c, s.items, false, kind, key, v), s.nvs, false)
    case DeleteCall(key, erased) =>
      Config(Without(s.items, key), if erased then s.nvs - {key} else s.nvs, s.noCommitPending)
    case CommitCall(stores) =>
      Config(CommitItems(c, s.items, stores, |s.items|), CommitNvs(c, s.items, s.nvs, stores, |s.items|), true)
  }

  function Replay(c: Conversions, s: Config, calls: seq<Call>): Config
    requires forall call :: call in calls ==> TypedCall(call)
    decreases |calls|
  {
    if calls == [] then s else Replay(c, After(c, s, calls[0]), calls[1..])
  }

  // ---------------------------------------------------------------- the cache

  class Cache {
    const conv: Conversions
    var items: seq<Item>
    var nvs: map<string, Stored>
    var loading: bool
    var noCommitPending: bool

    function View(): Config
      reads this
    {
      Config(items, nvs, noCommitPending)
    }

    constructor (conv: Conversions, nvs: map<string, Stored>)
      ensures View() == Config([], nvs, false) && this.conv == conv && !loading
      ensures Consistent(conv, items, nvs)
    {
      this.conv, this.nvs := conv, nvs;
      items, loading, noCommitPending := [], false, false;
    }

    // config_set_group_bit for the commit bit: ignored while loading.
    method SetCommitBit(flag: bool)
      modifies this`noCommitPending
      ensures noCommitPending == if loading then old(noCommitPending) else flag
    {
      if !loading {
        noCommitPending := flag;
      }
    }

    // config_set_entry_changed_flag; raising a change takes the commit bit down.
    method Flag(e: Entry, flag: bool) returns (e': Entry)
      modifies this`noCommitPending
      ensures e' == e.(chg := !loading && flag)
      ensures noCommitPending == (old(noCommitPending) && !e'.chg)
    {
      var changed := if loading then false else flag;
      e' := e.(chg := changed);
      if changed {
        SetCommitBit(false);
      }
    }

    // config_set_value_safe
    method SetValue(kind: Kind, key: string, v: Cell)
      requires Typed(kind, v)
      modifies this`items, this`noCommitPending
      ensures items == SetItems(conv, old(items), loading, kind, key, v)
      ensures !loading ==> View() == After(conv, old(View()), SetCall(kind, key, v))
      ensures loading ==> noCommitPending == old(noCommitPending)
    {
      hide Lower, NewEntry, Find, FindAnyCase;
      var i := Find(items, key);
      var was := if i < |items| then Some(items[i].entry) else None;
      var e := NewEntry(conv, was, kind, v);
      if was.Some? {
        e := e.(chg := was.value.chg);
        if e != was.value {
          e := Flag(e, true);
          AnyCaseNotAfter(items, key);
          Replaced(conv, items, loading, kind, key, v);
          items := items[FindAnyCase(items, key) := Item(key, e)];
        }
      } else {
        e := Flag(e, true);
        items := items + [Item(key, e)];
      }
    }

    // config_set_default
    method SetDefault(kind: Kind, key: string, v: Cell)
      requires Typed(kind, v) && !loading
      modifies this`items, this`noCommitPending
      ensures View() == After(conv, old(View()), DefaultCall(kind, key, v))
    {
      if Find(items, key) == |items| {
        SetValue(kind, key, v);
      }
    }

    // config_delete_key: the erase may fail, the member goes all the same.
    method Delete(key: string, erased: bool)
      modifies this`items, this`nvs
      ensures View() == After(conv, old(View()), DeleteCall(key, erased))
    {
      if erased {
        nvs := nvs - {key};
      }
      var i := Find(items, key);
      if i < |items| {
        items := items[..i] + items[i + 1..];
      }
    }

    // config_commit_to_nvs: stores(i) says whether NVS takes the i-th member. The commit bit
    // goes up whatever failed.
    method Commit(stores: nat -> bool)
      requires !loading
      modifies this`items, this`nvs, this`noCommitPending
      ensures View() == After(conv, old(View()), CommitCall(stores))
    {
      hide CellOf;
      var i := 0;
      while i < |items|
        invariant 0 <= i <= |items| == |old(items)|
        invariant items == CommitItems(conv, old(items), stores, i)
        invariant nvs == CommitNvs(conv, old(items), old(nvs), stores, i)
      {
        var x := items[i];
        assert x == old(items)[i];
        if x.entry.chg {
          var cell := CellOf(conv, x.entry);
          if cell.Some? && stores(i) {
            nvs := nvs[x.key := Stored(x.entry.kind, cell.value)];
            items := items[i := Item(x.key, x.entry.(chg := false))];
          }
        }
        CommitOne(conv, old(items), stores, i);
        i := i + 1;
      }
      SetCommitBit(true);
    }

    // nvs_load_config under config_init, over the keys NVS lists. Nothing is flagged; members are
    // what NVS has exactly when all types are supported and no two keys differ only in case.
    method Load(keys: seq<string>)
      requires items == [] && !loading && Faithful(conv)
      requires forall i, j :: 0 <= i < j < |keys| ==> keys[i] != keys[j]
      requires forall i :: 0 <= i < |keys| ==> keys[i] in nvs && Typed(nvs[keys[i]].kind, nvs[keys[i]].cell)
      modifies this`items, this`loading, this`noCommitPending
      ensures !loading && NothingChanged(items) && |items| == |keys| && noCommitPending == old(noCommitPending)
      ensures forall i :: 0 <= i < |keys| ==> items[i].key == keys[i]
      ensures Consistent(conv, items, nvs) <==>
              && (forall i :: 0 <= i < |keys| ==> Supported(nvs[keys[i]].kind))
              && (forall i, j :: 0 <= i < j < |keys| ==> Lower(keys[i]) != Lower(keys[j]))
    {
      hide Lower, LoadedItem, SetItems, CellOf, Clean;
      loading := true;
      for i := 0 to |keys|
        invariant loading && |items| == i && noCommitPending == old(noCommitPending)
        invariant forall j :: 0 <= j < i ==> items[j] == LoadedItem(conv, nvs, keys[j])
      {
        var stored := nvs[keys[i]];
        forall j | 0 <= j < i
          ensures items[j].key == keys[j] && !items[j].entry.chg
        {
          LoadedItemIs(conv, nvs, keys[j]);
        }
        LoadedLast(conv, items, nvs, keys[i]);
        SetValue(stored.kind, keys[i], stored.cell);
      }
      loading := false;
      forall i | 0 <= i < |keys|
        ensures Clean(conv, nvs, items[i]) <==> Supported(nvs[keys[i]].kind)
      {
        LoadedClean(conv, nvs, keys[i]);
      }
      forall i | 0 <= i < |keys|
        ensures items[i].key == keys[i] && !items[i].entry.chg
      {
        LoadedItemIs(conv, nvs, keys[i]);
      }
    }

    // Any schedule of calls.
    method Run(calls: seq<Call>)
      requires !loading && forall call :: call in calls ==> TypedCall(call)
      modifies this
      ensures !loading && View() == Replay(conv, old(View()), calls)
    {
      hide After;
      for n := 0 to |calls|
        invariant !loading && Replay(conv, View(), calls[n..]) == Replay(conv, old(View()), calls)
      {
        assert calls[n] in calls && calls[n..][0] == calls[n] && calls[n..][1..] == calls[n + 1..];
        match calls[n]
        case SetCall(kind, key, v) =>
          SetValue(kind, key, v);
        case DefaultCall(kind, key, v) =>
          SetDefault(kind, key, v);
        case DeleteCall(key, erased) =>
          Delete(key, erased);
        case CommitCall(stores) =>
          Commit(stores);
      }
      assert calls[|calls|..] == [];
    }
  }

  lemma Replaced(c: Conversions, items: seq<Item>, loading: bool, kind: Kind, key: string, v: Cell)
    requires Typed(kind, v) && Find(items, key) < |items|
    ensures var was := items[Find(items, key)].entry;
            var e := NewEntry(c, Some(was), kind, v);
            && FindAnyCase(items, key) < |items|
            && (e.(chg := was.chg) != was ==>
                  SetItems(c, items, loading, kind, key, v)
                  == items[FindAnyCase(items, key) := Item(key, e.(chg := !loading))])
  {
    AnyCaseNotAfter(items, key);
  }

  function LoadedItem(c: Conversions, nvs: map<string, Stored>, key: string): Item
    requires key in nvs && Typed(nvs[key].kind, nvs[key].cell)
  {
    Item(key, NewEntry(c, None, nvs[key].kind, nvs[key].cell))
  }

  lemma LoadedItemIs(c: Conversions, nvs: map<string, Stored>, key: string)
    requires key in nvs && Typed(nvs[key].kind, nvs[key].cell)
    ensures LoadedItem(c, nvs, key).key == key && !LoadedItem(c, nvs, key).entry.chg
  {
  }

  lemma LoadedLast(c: Conversions, items: seq<Item>, nvs: map<string, Stored>, key: string)
    requires key in nvs && Typed(nvs[key].kind, nvs[key].cell)
    requires forall i :: 0 <= i < |items| ==> items[i].key != key
    ensures SetItems(c, items, true, nvs[key].kind, key, nvs[key].cell) == items + [LoadedItem(c, nvs, key)]
  {
    hide Lower;
    assert Find(items, key) == |items|;
  }

  lemma LoadedClean(c: Conversions, nvs: map<string, Stored>, key: string)
    requires Faithful(c) && key in nvs && Typed(nvs[key].kind, nvs[key].cell)
    ensures Clean(c, nvs, LoadedItem(c, nvs, key)) <==> Supported(nvs[key].kind)
  {
  }

  // ---------------------------------------------------------------- what the cache keeps

  lemma CommitOne(c: Conversions, items: seq<Item>, stores: nat -> bool, i: nat)
    requires i < |items|
    ensures var done := CommitItems(c, items, stores, i);
            && done[i] == items[i]
            && CommitItems(c, items, stores, i + 1) == done[i := CommitItem(c, items[i], stores(i))]
  {
    hide CommitItem;
  }

  lemma CommitNone(c: Conversions, items: seq<Item>, stores: nat -> bool)
    ensures CommitItems(c, items, stores, 0) == items
  {
    hide CommitItem;
  }

  // No member differs from the key in case alone.
  predicate NoCaseClash(items: seq<Item>, key: string) {
    forall i :: 0 <= i < |items| && Lower(items[i].key) == Lower(key) ==> items[i].key == key
  }

  // Setting a value keeps unflagged members equal to NVS when no key differs from it in case alone.
  lemma SetKeeps(c: Conversions, items: seq<Item>, nvs: map<string, Stored>, kind: Kind, key: string, v: Cell)
    requires Consistent(c, items, nvs) && Typed(kind, v) && NoCaseClash(items, key)
    ensures Consistent(c, SetItems(c, items, false, kind, key, v), nvs)
  {
    hide NewEntry, CellOf, Lower;
    if Find(items, key) < |items| {
      AnyCaseNotAfter(items, key);
      ReplaceFindsSame(items, key);
      assert FindAnyCase(items, key) == Find(items, key) by {
        assert Lower(items[Find(items, key)].key) == Lower(key);
      }
    }
  }

  // Otherwise an update can destroy another member: both members are "volume" after it.
  lemma CaseClash(c: Conversions, a: Entry, b: Entry, t: string)
    requires b.kind == Str && b.value != String(t)
    ensures SetItems(c, [Item("Volume", a), Item("volume", b)], false, Str, "volume", Text(t))
         == [Item("volume", Entry(Str, String(t), true)), Item("volume", b)]
  {
    var items := [Item("Volume", a), Item("volume", b)];
    assert "Volume"[0] != "volume"[0];
    assert items[1..][0].key == "volume";
    assert Find(items, "volume") == 1;
    assert Lower("Volume") == Lower("volume");
    assert FindAnyCase(items, "volume") == 0;
    assert EntryAt(items, "volume") == Some(b);
  }

  lemma DeleteKeeps(c: Conversions, items: seq<Item>, nvs: map<string, Stored>, key: string)
    requires Consistent(c, items, nvs)
    ensures var rest := Without(items, key);
            Consistent(c, rest, nvs) && Consistent(c, rest, nvs - {key})
  {
    WithoutKey(items, key);
    hide CellOf, Distinct, Find;
    var i := Find(items, key);
    var rest := Without(items, key);
    forall j | 0 <= j < |rest| && !rest[j].entry.chg
      ensures Clean(c, nvs, rest[j]) && Clean(c, nvs - {key}, rest[j])
    {
      assert rest[j] == items[if j < i then j else j + 1];
    }
  }

  lemma StoreKeeps(c: Conversions, items: seq<Item>, nvs: map<string, Stored>, i: nat, taken: bool)
    requires Consistent(c, items, nvs) && i < |items|
    ensures Consistent(c, items[i := CommitItem(c, items[i], taken)],
              if CanStore(c, items[i], taken)
              then nvs[items[i].key := Stored(items[i].entry.kind, CellOf(c, items[i].entry).value)] else nvs)
  {
    hide Lower;
    var x := items[i];
    if CanStore(c, x, taken) {
      var nvs' := nvs[x.key := Stored(x.entry.kind, CellOf(c, x.entry).value)];
      var items' := items[i := CommitItem(c, x, taken)];
      assert Clean(c, nvs', items'[i]);
      hide CellOf;
      forall j | 0 <= j < |items'| && !items'[j].entry.chg
        ensures Clean(c, nvs', items'[j])
      {
        if j != i {
          assert Lower(items[j].key) != Lower(items[i].key);
        }
      }
    }
  }

  lemma {:induction false} CommitKeeps(c: Conversions, items: seq<Item>, nvs: map<string, Stored>,
                                       stores: nat -> bool, n: nat)
    requires Consistent(c, items, nvs) && n <= |items|
    ensures Consistent(c, CommitItems(c, items, stores, n), CommitNvs(c, items, nvs, stores, n))
    decreases n
  {
    hide Consistent, CommitItem, CommitItems, CellOf, CanStore;
    if n == 0 {
      CommitNone(c, items, stores);
    } else {
      CommitKeeps(c, items, nvs, stores, n - 1);
      CommitOne(c, items, stores, n - 1);
      StoreKeeps(c, CommitItems(c, items, stores, n - 1), CommitNvs(c, items, nvs, stores, n - 1), n - 1,
                 stores(n - 1));
    }
  }

  // After a commit nothing is left changed exactly when every changed member could be stored.
  lemma CommitSettles(c: Conversions, items: seq<Item>, stores: nat -> bool)
    ensures NothingChanged(CommitItems(c, items, stores, |items|))
       <==> forall i :: 0 <= i < |items| && items[i].entry.chg ==> CanStore(c, items[i], stores(i))
  {
    var done := CommitItems(c, items, stores, |items|);
    assert forall i :: 0 <= i < |items| ==> done[i] == CommitItem(c, items[i], stores(i));
    hide CellOf;
    if NothingChanged(done) {
      forall i | 0 <= i < |items| && items[i].entry.chg
        ensures CanStore(c, items[i], stores(i))
      {
        assert !done[i].entry.chg;
      }
    }
  }

  // The key a call names.
  function KeyOf(call: Call): Option<string> {
    match call
    case SetCall(_, key, _) => Some(key)
    case DefaultCall(_, key, _) => Some(key)
    case DeleteCall(key, _) => Some(key)
    case CommitCall(_) => None
  }

  // No two of the names differ in case alone.
  ghost predicate OneSpelling(names: set<string>) {
    forall a, b :: a in names && b in names && Lower(a) == Lower(b) ==> a == b
  }

  ghost predicate Named(items: seq<Item>, names: set<string>) {
    forall i :: 0 <= i < |items| ==> items[i].key in names
  }

  ghost predicate CallNamed(call: Call, names: set<string>) {
    KeyOf(call).Some? ==> KeyOf(call).value in names
  }

  lemma AfterNamed(c: Conversions, s: Config, call: Call, names: set<string>)
    requires TypedCall(call) && Named(s.items, names) && CallNamed(call, names)
    ensures Named(After(c, s, call).items, names)
  {
    hide NewEntry, CellOf, Lower;
    match call {
      case SetCall(kind, key, v) =>
        if Find(s.items, key) < |s.items| {
          AnyCaseNotAfter(s.items, key);
        }
      case DefaultCall(kind, key, v) =>
      case DeleteCall(key, erased) =>
      case CommitCall(stores) =>
        var done := CommitItems(c, s.items, stores, |s.items|);
        forall i | 0 <= i < |done|
          ensures done[i].key in names
        {
          assert done[i] == CommitItem(c, s.items[i], stores(i));
        }
    }
  }

  lemma AfterKeeps(c: Conversions, s: Config, call: Call)
    requires Consistent(c, s.items, s.nvs) && TypedCall(call)
    requires KeyOf(call).Some? ==> NoCaseClash(s.items, KeyOf(call).value)
    ensures Consistent(c, After(c, s, call).items, After(c, s, call).nvs)
  {
    hide Consistent, SetItems, CommitItems, CommitNvs, NoCaseClash, Without;
    match call {
      case SetCall(kind, key, v) => SetKeeps(c, s.items, s.nvs, kind, key, v);
      case DefaultCall(kind, key, v) => SetKeeps(c, s.items, s.nvs, kind, key, v);
      case DeleteCall(key, erased) => DeleteKeeps(c, s.items, s.nvs, key);
      case CommitCall(stores) => CommitKeeps(c, s.items, s.nvs, stores, |s.items|);
    }
  }

  // In every reachable state, members whose flag is down are what NVS has.
  lemma {:induction false} ReplayKeeps(c: Conversions, s: Config, calls: seq<Call>, names: set<string>)
    requires forall call :: call in calls ==> TypedCall(call) && CallNamed(call, names)
    requires Consistent(c, s.items, s.nvs) && OneSpelling(names) && Named(s.items, names)
    ensures Consistent(c, Replay(c, s, calls).items, Replay(c, s, calls).nvs)
    ensures Named(Replay(c, s, calls).items, names)
    decreases |calls|
  {
    hide Consistent, After, Lower, KeyOf;
    if calls != [] {
      AfterNamed(c, s, calls[0], names);
      AfterKeeps(c, s, calls[0]);
      ReplayKeeps(c, After(c, s, calls[0]), calls[1..], names);
    }
  }

  // The promise of the commit bit.
  ghost predicate Settled(s: Config) {
    s.noCommitPending ==> NothingChanged(s.items)
  }

  // Calls with types the cache supports, and commits in which NVS takes everything.
  ghost predicate Untroubled(call: Call) {
    match call
    case SetCall(kind, _, _) => Supported(kind)
    case DefaultCall(kind, _, _) => Supported(kind)
    case DeleteCall(_, _) => true
    case CommitCall(stores) => forall i: nat :: stores(i)
  }

  lemma AfterSettled(c: Conversions, s: Config, call: Call)
    requires Faithful(c) && TypedCall(call) && Untroubled(call) && Storable(c, s.items) && Settled(s)
    ensures Storable(c, After(c, s, call).items) && Settled(After(c, s, call))
  {
    match call {
      case SetCall(kind, key, v) => SetStorable(c, s.items, kind, key, v);
      case DefaultCall(kind, key, v) => SetStorable(c, s.items, kind, key, v);
      case DeleteCall(key, erased) =>
        hide CellOf, Find;
      case CommitCall(stores) =>
        CommitSettles(c, s.items, stores);
        hide CellOf;
        assert Storable(c, CommitItems(c, s.items, stores, |s.items|)) by {
          CommitStorable(c, s.items, stores);
        }
    }
  }

  lemma SetStorable(c: Conversions, items: seq<Item>, kind: Kind, key: string, v: Cell)
    requires Faithful(c) && Typed(kind, v) && Supported(kind) && Storable(c, items)
    ensures Storable(c, SetItems(c, items, false, kind, key, v))
  {
    hide CellOf, NewEntry, Lower;
    NewEntryCell(c, EntryAt(items, key), kind, v);
    var e := NewEntry(c, EntryAt(items, key), kind, v);
    FlagIsNoValue(c, e, e.(chg := true));
    if Find(items, key) < |items| {
      AnyCaseNotAfter(items, key);
    }
  }

  lemma CommitStorable(c: Conversions, items: seq<Item>, stores: nat -> bool)
    requires Storable(c, items)
    ensures Storable(c, CommitItems(c, items, stores, |items|))
  {
    var done := CommitItems(c, items, stores, |items|);
    forall i | 0 <= i < |done|
      ensures CellOf(c, done[i].entry) == CellOf(c, items[i].entry) && done[i].entry.kind == items[i].entry.kind
    {
      assert done[i] == CommitItem(c, items[i], stores(i));
    }
  }

  // While no store is refused, a raised commit bit means that nothing is left to store.
  lemma {:induction false} ReplaySettled(c: Conversions, s: Config, calls: seq<Call>)
    requires Faithful(c) && Storable(c, s.items) && Settled(s)
    requires forall call :: call in calls ==> TypedCall(call) && Untroubled(call)
    ensures Settled(Replay(c, s, calls)) && Storable(c, Replay(c, s, calls).items)
    decreases |calls|
  {
    hide Storable, Settled, After;
    if calls != [] {
      AfterSettled(c, s, calls[0]);
      ReplaySettled(c, After(c, s, calls[0]), calls[1..]);
    }
  }

  // ---------------------------------------------------------------- the last value set

  // What is cached under a key.
  ghost predicate Caches(c: Conversions, s: Config, key: string, kind: Kind, cell: Cell) {
    var e := EntryAt(s.items, key);
    e.Some? && e.value.kind == kind && CellOf(c, e.value) == Some(cell)
  }

  // A value set is the value cached: that of the entry made of it.
  lemma SetCaches(c: Conversions, s: Config, kind: Kind, key: string, v: Cell)
    requires Typed(kind, v) && NoCaseClash(s.items, key)
    requires CellOf(c, NewEntry(c, EntryAt(s.items, key), kind, v)).Some?
    ensures var e := NewEntry(c, EntryAt(s.items, key), kind, v);
            Caches(c, After(c, s, SetCall(kind, key, v)), key, e.kind, CellOf(c, e).value)
  {
    var e := NewEntry(c, EntryAt(s.items, key), kind, v);
    SetAt(c, s.items, kind, key, v);
    var i := Find(s.items, key);
    var items' := SetItems(c, s.items, false, kind, key, v);
    FlagIsNoValue(c, e, items'[i].entry);
  }

  lemma SetAt(c: Conversions, items: seq<Item>, kind: Kind, key: string, v: Cell)
    requires Typed(kind, v) && NoCaseClash(items, key)
    ensures var e := NewEntry(c, EntryAt(items, key), kind, v);
            var items' := SetItems(c, items, false, kind, key, v);
            var i := Find(items, key);
            i < |items'| && Find(items', key) == i
            && items'[i].entry.kind == e.kind && items'[i].entry.value == e.value
  {
    hide CellOf, NewEntry, Lower;
    var items' := SetItems(c, items, false, kind, key, v);
    var i := Find(items, key);
    if i < |items| {
      AnyCaseNotAfter(items, key);
      ReplaceFindsSame(items, key);
      assert FindAnyCase(items, key) == i by {
        assert Lower(items[i].key) == Lower(key);
      }
    }
    hide Find, FindAnyCase;
    FindUpdated(items, items', key, i);
  }

  lemma FlagIsNoValue(c: Conversions, e: Entry, e': Entry)
    requires e.kind == e'.kind && e.value == e'.value
    ensures CellOf(c, e) == CellOf(c, e')
  {
  }

  // The first member with a key stays where it is when the members before it keep theirs.
  lemma FindUpdated(items: seq<Item>, items': seq<Item>, key: string, i: nat)
    requires i == Find(items, key) < |items'| && |items| <= |items'| && items'[i].key == key
    requires forall k :: 0 <= k < i ==> items'[k].key == items[k].key
    ensures Find(items', key) == i
  {
    assert forall k :: 0 <= k < i ==> items'[k].key != key;
  }

  // Calls that do not name the key leave what is cached under it.
  lemma OthersKeep(c: Conversions, s: Config, call: Call, key: string, kind: Kind, cell: Cell)
    requires Caches(c, s, key, kind, cell) && TypedCall(call) && KeyOf(call) != Some(key)
    requires KeyOf(call).Some? ==> NoCaseClash(s.items, KeyOf(call).value)
    ensures Caches(c, After(c, s, call), key, kind, cell)
  {
    var i := Find(s.items, key);
    match call {
      case SetCall(k, other, v) =>
        OtherSet(c, s.items, k, other, v, key);
      case DefaultCall(k, other, v) =>
        OtherSet(c, s.items, k, other, v, key);
      case DeleteCall(other, erased) =>
        hide CellOf, Lower;
        OtherGone(s.items, other, key);
      case CommitCall(stores) =>
        var done := CommitItems(c, s.items, stores, |s.items|);
        assert forall j :: 0 <= j < |done| ==> done[j] == CommitItem(c, s.items[j], stores(j));
        FlagIsNoValue(c, s.items[i].entry, done[i].entry);
        hide CellOf, Find;
        FindUpdated(s.items, done, key, i);
    }
  }

  lemma OtherSet(c: Conversions, items: seq<Item>, kind: Kind, other: string, v: Cell, key: string)
    requires Typed(kind, v) && NoCaseClash(items, other) && other != key && Find(items, key) < |items|
    ensures var items' := SetItems(c, items, false, kind, other, v);
            && Find(items', key) == Find(items, key) < |items'|
            && items'[Find(items, key)] == items[Find(items, key)]
  {
    hide CellOf, NewEntry, Lower;
    var items' := SetItems(c, items, false, kind, other, v);
    if Find(items, other) < |items| {
      AnyCaseNotAfter(items, other);
      assert items[FindAnyCase(items, other)].key == other;
    }
    hide Find, FindAnyCase;
    FindUpdated(items, items', key, Find(items, key));
  }

  lemma WithoutAt(items: seq<Item>, other: string, k: nat)
    requires Find(items, other) < |items| && k < |items| - 1
    ensures |Without(items, other)| == |items| - 1
    ensures Without(items, other)[k] == if k < Find(items, other) then items[k] else items[k + 1]
  {
    hide Find;
  }

  lemma OtherGone(items: seq<Item>, other: string, key: string)
    requires other != key && Find(items, key) < |items|
    ensures var rest := Without(items, other);
            EntryAt(rest, key) == EntryAt(items, key)
  {
    hide Find, Without;
    var d, i := Find(items, other), Find(items, key);
    if d < |items| {
      var i' := if d < i then i - 1 else i;
      WithoutAt(items, other, i');
      forall k | 0 <= k < i'
        ensures Without(items, other)[k].key != key
      {
        WithoutAt(items, other, k);
      }
      FindFirst(Without(items, other), key, i');
    } else {
      NoneGone(items, other);
    }
  }

  lemma NoneGone(items: seq<Item>, other: string)
    requires Find(items, other) == |items|
    ensures Without(items, other) == items
  {
  }

  lemma FindFirst(items: seq<Item>, key: string, i: nat)
    requires i < |items| && items[i].key == key && forall k :: 0 <= k < i ==> items[k].key != key
    ensures Find(items, key) == i
  {
  }

  lemma {:induction false} OthersReplayed(c: Conversions, s: Config, calls: seq<Call>, names: set<string>,
                                          key: string, kind: Kind, cell: Cell)
    requires forall call :: call in calls ==> TypedCall(call) && CallNamed(call, names) && KeyOf(call) != Some(key)
    requires OneSpelling(names) && Named(s.items, names) && Caches(c, s, key, kind, cell)
    ensures Caches(c, Replay(c, s, calls), key, kind, cell)
    decreases |calls|
  {
    hide Caches, After, Lower, KeyOf;
    if calls != [] {
      AfterNamed(c, s, calls[0], names);
      OthersKeep(c, s, calls[0], key, kind, cell);
      OthersReplayed(c, After(c, s, calls[0]), calls[1..], names, key, kind, cell);
    }
  }

  // The value last set for a key is what NVS holds under it after a commit in which NVS takes it,
  // whatever calls about other keys and commits came between.
  lemma LastValueStored(c: Conversions, s: Config, kind: Kind, key: string, v: Cell, calls: seq<Call>,
                        stores: nat -> bool, names: set<string>)
    requires forall call :: call in calls ==> TypedCall(call) && CallNamed(call, names) && KeyOf(call) != Some(key)
    requires Consistent(c, s.items, s.nvs) && OneSpelling(names) && Named(s.items, names) && key in names
    requires Typed(kind, v) && CellOf(c, NewEntry(c, EntryAt(s.items, key), kind, v)).Some?
    requires forall i: nat :: stores(i)
    ensures var e := NewEntry(c, EntryAt(s.items, key), kind, v);
            var end := After(c, Replay(c, After(c, s, SetCall(kind, key, v)), calls), CommitCall(stores));
            key in end.nvs && end.nvs[key] == Stored(e.kind, CellOf(c, e).value)
  {
    var e := NewEntry(c, EntryAt(s.items, key), kind, v);
    var cell := CellOf(c, e).value;
    var change := SetCall(kind, key, v);
    var s1 := After(c, s, change);
    SetCaches(c, s, kind, key, v);
    AfterNamed(c, s, change, names);
    AfterKeeps(c, s, change);
    hide Caches, After, Lower, Consistent, NewEntry, CellOf;
    OthersReplayed(c, s1, calls, names, key, e.kind, cell);
    ReplayKeeps(c, s1, calls, names);
    var s2 := Replay(c, s1, calls);
    CachedIsStored(c, s2, key, e.kind, cell, stores);
  }

  lemma CachedIsStored(c: Conversions, s: Config, key: string, kind: Kind, cell: Cell, stores: nat -> bool)
    requires Consistent(c, s.items, s.nvs) && Caches(c, s, key, kind, cell) && forall i: nat :: stores(i)
    ensures var nvs := After(c, s, CommitCall(stores)).nvs;
            key in nvs && nvs[key] == Stored(kind, cell)
  {
    var i := Find(s.items, key);
    var done := CommitItems(c, s.items, stores, |s.items|);
    assert done[i] == CommitItem(c, s.items[i], stores(i));
    FlagIsNoValue(c, s.items[i].entry, done[i].entry);
    CommitKeeps(c, s.items, s.nvs, stores, |s.items|);
    assert Clean(c, After(c, s, CommitCall(stores)).nvs, done[i]);
  }
}
