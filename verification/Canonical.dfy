/** The one byte form of a record, and the semantic encoding that forgets how its instants were spelled. */
module Canonical {
  import opened Wrappers
  import opened Datetimes
  import opened DatetimeText
  import opened Ordering
  import opened Sorting

  // ---- Records ----

  datatype Num = Finite(value: real) | NonFinite

  datatype Scalar =
    | TextScalar(text: string) | NumberScalar(number: Num) | BoolScalar(flag: bool)
    | DateScalar(date: Date) | DatetimeScalar(datetime: Datetime)

  datatype Value = One(scalar: Scalar) | Many(items: seq<Scalar>)

  type Entry = (string, Value)

  datatype Record = Record(isNote: bool, entries: seq<Entry>, body: string)

  datatype EmitError = NonFiniteNumber(key: string) | InvalidDatetime(key: string)

  /** The text rules the serializer relies on, and the registry's answer whether a key's list is a set. */
  datatype Style = Style(
    plain: string -> bool, quoted: string -> string, number: real -> string, setLike: string -> bool)

  const NOTE_STRUCTURAL: seq<string> := ["id", "instance_id", "field_id", "type", "occurred_at"]

  const RECORD_STRUCTURAL: seq<string> := ["id", "type"]

  const SEMANTIC_EXCLUSIONS: seq<string> :=
    ["captured_at", "collected_by", "content_hash", "entities", "field_id", "id", "instance_id", "related",
     "source_version"]

  // ---- Scalars and items ----

  function EmitScalar(style: Style, scalar: Scalar, key: string): Result<string, EmitError> {
    match scalar
    case TextScalar(text) => Ok(if style.plain(text) then text else style.quoted(text))
    case NumberScalar(Finite(value)) => Ok(style.number(value))
    case NumberScalar(NonFinite) => Err(NonFiniteNumber(key))
    case BoolScalar(flag) => Ok(if flag then "true" else "false")
    case DateScalar(date) => Ok(RenderDate(date))
    case DatetimeScalar(datetime) => Ok(Render(datetime))
  }

  /** An item sorts by its text or its rendering, and is written as its rendering. */
  type Rendered = (string, string)

  function RenderItem(style: Style, item: Scalar, key: string): Result<Rendered, EmitError> {
    match EmitScalar(style, item, key)
    case Err(error) => Err(error)
    case Ok(text) => Ok((if item.TextScalar? then item.text else text, text))
  }

  function RenderItems(style: Style, items: seq<Scalar>, key: string): Result<seq<Rendered>, EmitError> {
    if items == [] then Ok([])
    else
      match RenderItem(style, items[0], key)
      case Err(error) => Err(error)
      case Ok(first) =>
        match RenderItems(style, items[1..], key)
        case Err(error) => Err(error)
        case Ok(rest) => Ok([first] + rest)
  }

  predicate RenderedLess(a: Rendered, b: Rendered) {
    Less(a.0, b.0) || (a.0 == b.0 && Less(a.1, b.1))
  }

  lemma RenderedOrder()
    ensures StrictTotal(RenderedLess)
  {
    forall a ensures !RenderedLess(a, a) {
      LessIsStrict(a.0);
      LessIsStrict(a.1);
    }
    forall a, b ensures RenderedLess(a, b) || a == b || RenderedLess(b, a) {
      LessTotal(a.0, b.0);
      LessTotal(a.1, b.1);
    }
    forall a, b, c | RenderedLess(a, b) && RenderedLess(b, c) ensures RenderedLess(a, c) {
      if Less(a.0, b.0) && Less(b.0, c.0) { LessTransitive(a.0, b.0, c.0); }
      if Less(a.1, b.1) && Less(b.1, c.1) { LessTransitive(a.1, b.1, c.1); }
    }
  }

  function ItemLines(items: seq<Rendered>): string {
    if items == [] then "" else ItemLines(items[..|items| - 1]) + "  - " + items[|items| - 1].1 + "\n"
  }

  /** One property: a line, a block list, or nothing for an empty list. */
  function EmitEntry(style: Style, key: string, value: Value): Result<string, EmitError> {
    match value
    case One(scalar) =>
      (match EmitScalar(style, scalar, key)
       case Err(error) => Err(error)
       case Ok(text) => Ok(key + ": " + text + "\n"))
    case Many(items) =>
      if items == [] then Ok("")
      else
        match RenderItems(style, items, key)
        case Err(error) => Err(error)
        case Ok(rendered) =>
          var listed := if style.setLike(key) then Dedup(Sort(rendered, RenderedLess)) else rendered;
          Ok(key + ":\n" + ItemLines(listed))
  }

  // ---- Order of entries ----

  predicate UniqueKeys(entries: seq<Entry>) {
    forall i, j :: 0 <= i < j < |entries| ==> entries[i].0 != entries[j].0
  }

  function Keys(entries: seq<Entry>): (keys: seq<string>)
    ensures |keys| == |entries| && forall i :: 0 <= i < |entries| ==> keys[i] == entries[i].0
  {
    seq(|entries|, i requires 0 <= i < |entries| => entries[i].0)
  }

  function Get(entries: seq<Entry>, key: string): Option<Value> {
    if entries == [] then None else if entries[0].0 == key then Some(entries[0].1) else Get(entries[1..], key)
  }

  predicate ByKey(a: Entry, b: Entry) { Less(a.0, b.0) }

  function Without(entries: seq<Entry>, keys: seq<string>): seq<Entry> {
    if entries == [] then []
    else
      var n := |entries| - 1;
      Without(entries[..n], keys) + if entries[n].0 in keys then [] else [entries[n]]
  }

  function Present(entries: seq<Entry>, keys: seq<string>): seq<Entry> {
    if keys == [] then []
    else
      var n := |keys| - 1;
      Present(entries, keys[..n])
      + match Get(entries, keys[n]) case Some(value) => [(keys[n], value)] case None => []
  }

  /** The structural keys a record carries, in their order, then every other key ascending. */
  function OrderedEntries(entries: seq<Entry>, structural: seq<string>): seq<Entry> {
    Present(entries, structural) + Sort(Without(entries, structural), ByKey)
  }

  /** The entries one after the other; the first that cannot be written ends it. */
  function EmitAll(style: Style, entries: seq<Entry>): Result<string, EmitError> {
    if entries == [] then Ok("")
    else
      var n := |entries| - 1;
      match EmitAll(style, entries[..n])
      case Err(error) => Err(error)
      case Ok(before) =>
        match EmitEntry(style, entries[n].0, entries[n].1)
        case Err(error) => Err(error)
        case Ok(text) => Ok(before + text)
  }

  function Framed(text: Result<string, EmitError>, body: string): Result<string, EmitError> {
    match text
    case Err(error) => Err(error)
    case Ok(frontmatter) => Ok("---\n" + frontmatter + "---\n\n" + body)
  }

  function Structural(record: Record): seq<string> {
    if record.isNote then NOTE_STRUCTURAL else RECORD_STRUCTURAL
  }

  function CanonicalText(style: Style, record: Record): Result<string, EmitError> {
    Framed(EmitAll(style, OrderedEntries(record.entries, Structural(record))), record.body)
  }

  // ---- The semantic encoding ----

  function ToUtcScalar(scalar: Scalar): Result<Scalar, EmitError> {
    if scalar.DatetimeScalar? then
      match ToUtc(scalar.datetime)
      case Err(_) => Err(InvalidDatetime(""))
      case Ok(utc) => Ok(DatetimeScalar(utc))
    else Ok(scalar)
  }

  function ToUtcItems(items: seq<Scalar>): Result<seq<Scalar>, EmitError> {
    if items == [] then Ok([])
    else
      match ToUtcScalar(items[0])
      case Err(error) => Err(error)
      case Ok(first) =>
        match ToUtcItems(items[1..])
        case Err(error) => Err(error)
        case Ok(rest) => Ok([first] + rest)
  }

  function ToUtcValue(value: Value): Result<Value, EmitError> {
    match value
    case One(scalar) => (match ToUtcScalar(scalar) case Err(error) => Err(error) case Ok(utc) => Ok(One(utc)))
    case Many(items) => match ToUtcItems(items) case Err(error) => Err(error) case Ok(utc) => Ok(Many(utc))
  }

  function EmitUtcEntry(style: Style, key: string, value: Value): Result<string, EmitError> {
    match ToUtcValue(value)
    case Err(error) => Err(error)
    case Ok(utc) => EmitEntry(style, key, utc)
  }

  function EmitUtcAll(style: Style, entries: seq<Entry>): Result<string, EmitError> {
    if entries == [] then Ok("")
    else
      var n := |entries| - 1;
      match EmitUtcAll(style, entries[..n])
      case Err(error) => Err(error)
      case Ok(before) =>
        match EmitUtcEntry(style, entries[n].0, entries[n].1)
        case Err(error) => Err(error)
        case Ok(text) => Ok(before + text)
  }

  function SemanticText(style: Style, record: Record): Result<string, EmitError> {
    Framed(EmitUtcAll(style, Sort(Without(record.entries, SEMANTIC_EXCLUSIONS), ByKey)), record.body)
  }

  // ---- Sorted entries are the key-to-value map, in one order ----

  lemma {:induction false} GetIn(entries: seq<Entry>, key: string)
    requires UniqueKeys(entries)
    ensures Get(entries, key).Some? ==> (key, Get(entries, key).value) in entries
    ensures forall i :: 0 <= i < |entries| && entries[i].0 == key ==> Get(entries, key) == Some(entries[i].1)
  {
    if entries != [] && entries[0].0 != key {
      var rest := entries[1..];
      GetIn(rest, key);
      assert forall i :: 1 <= i < |entries| ==> rest[i - 1] == entries[i];
      if Get(rest, key).Some? { assert (key, Get(rest, key).value) in rest; }
    }
  }

  lemma {:induction false} WithoutHolds(entries: seq<Entry>, keys: seq<string>)
    requires UniqueKeys(entries)
    ensures UniqueKeys(Without(entries, keys))
    ensures forall e :: e in Without(entries, keys) <==> e in entries && e.0 !in keys
  {
    if entries != [] {
      var n := |entries| - 1;
      WithoutHolds(entries[..n], keys);
      assert entries == entries[..n] + [entries[n]];
      var kept := Without(entries[..n], keys);
      forall i | 0 <= i < |kept| ensures kept[i].0 != entries[n].0 {
        assert kept[i] in entries[..n];
      }
    }
  }

  predicate AscendingKeys(entries: seq<Entry>) {
    forall i, j :: 0 <= i < j < |entries| ==> Less(entries[i].0, entries[j].0)
  }

  lemma {:induction false} InsertByKey(x: Entry, s: seq<Entry>)
    requires AscendingKeys(s) && forall i :: 0 <= i < |s| ==> s[i].0 != x.0
    ensures AscendingKeys(Insert(x, s, ByKey))
    ensures forall e :: e in Insert(x, s, ByKey) <==> e == x || e in s
  {
    if s != [] {
      assert s == [s[0]] + s[1..];
      if ByKey(s[0], x) {
        InsertByKey(x, s[1..]);
        var t := Insert(x, s[1..], ByKey);
        forall j | 0 <= j < |t| ensures Less(s[0].0, t[j].0) { assert t[j] in t; }
      } else {
        LessTotal(s[0].0, x.0);
        forall j | 0 <= j < |s| ensures Less(x.0, s[j].0) {
          if j > 0 { LessTransitive(x.0, s[0].0, s[j].0); }
        }
      }
    }
  }

  lemma {:induction false} SortByKey(entries: seq<Entry>)
    requires UniqueKeys(entries)
    ensures AscendingKeys(Sort(entries, ByKey))
    ensures forall e :: e in Sort(entries, ByKey) <==> e in entries
  {
    if entries != [] {
      var rest := Sort(entries[1..], ByKey);
      SortByKey(entries[1..]);
      assert entries == [entries[0]] + entries[1..];
      forall i | 0 <= i < |rest| ensures rest[i].0 != entries[0].0 {
        assert rest[i] in entries[1..];
      }
      InsertByKey(entries[0], rest);
    }
  }

  // ---- The approved order ----

  function Position(keys: seq<string>, key: string): nat {
    if keys == [] then 0 else if keys[|keys| - 1] == key then |keys| - 1 else Position(keys[..|keys| - 1], key)
  }

  /** Structural properties come first in their own order, then all others in ascending byte order. */
  predicate Precedes(structural: seq<string>, a: string, b: string) {
    if a in structural then b !in structural || Position(structural, a) < Position(structural, b)
    else b !in structural && Less(a, b)
  }

  predicate InOrder(structural: seq<string>, entries: seq<Entry>) {
    forall i, j :: 0 <= i < j < |entries| ==> Precedes(structural, entries[i].0, entries[j].0)
  }

  predicate Distinct(keys: seq<string>) {
    forall i, j :: 0 <= i < j < |keys| ==> keys[i] != keys[j]
  }

  lemma {:induction false} PresentHolds(entries: seq<Entry>, keys: seq<string>)
    requires UniqueKeys(entries) && Distinct(keys)
    ensures forall e :: e in Present(entries, keys) <==> e in entries && e.0 in keys
    ensures InOrder(keys, Present(entries, keys))
    decreases |keys|
  {
    if keys != [] {
      var n := |keys| - 1;
      var key := keys[n];
      assert keys == keys[..n] + [key];
      PresentHolds(entries, keys[..n]);
      GetIn(entries, key);
      var before, after := Present(entries, keys[..n]), Present(entries, keys);
      forall e ensures e in after <==> e in entries && e.0 in keys {
        EntryOfKey(entries, key, e);
      }
      forall i, j | 0 <= i < j < |after| ensures Precedes(keys, after[i].0, after[j].0) {
        assert before[i] in before;
        PositionGrows(keys, after[i].0);
        if j < |before| {
          assert before[j] in before;
          PositionGrows(keys, after[j].0);
          assert Precedes(keys[..n], before[i].0, before[j].0);
        }
      }
    }
  }

  lemma EntryOfKey(entries: seq<Entry>, key: string, e: Entry)
    requires UniqueKeys(entries)
    ensures e in entries && e.0 == key <==> Get(entries, key) == Some(e.1) && e.0 == key
  {
    hide Get, UniqueKeys;
    GetIn(entries, key);
    if e in entries && e.0 == key { var i :| 0 <= i < |entries| && entries[i] == e; }
  }

  lemma PositionGrows(keys: seq<string>, key: string)
    requires keys != [] && Distinct(keys) && key in keys[..|keys| - 1]
    ensures key in keys && Position(keys, key) == Position(keys[..|keys| - 1], key) < |keys| - 1
  {
    PositionBounded(keys[..|keys| - 1], key);
  }

  lemma {:induction false} PositionBounded(keys: seq<string>, key: string)
    requires key in keys
    ensures Position(keys, key) < |keys| && keys[Position(keys, key)] == key
  {
    var n := |keys| - 1;
    if keys[n] != key {
      assert keys == keys[..n] + [keys[n]];
      PositionBounded(keys[..n], key);
    }
  }

  /** The canonical order lists every property exactly once, structural properties first. */
  lemma CanonicalOrder(entries: seq<Entry>, structural: seq<string>)
    requires UniqueKeys(entries) && Distinct(structural)
    ensures var ordered := OrderedEntries(entries, structural);
            (forall e :: e in ordered <==> e in entries)
            && InOrder(structural, ordered) && UniqueKeys(ordered)
  {
    PresentHolds(entries, structural);
    WithoutHolds(entries, structural);
    SortByKey(Without(entries, structural));
    var head, rest := Present(entries, structural), Sort(Without(entries, structural), ByKey);
    hide Present, Without, Sort, Position, Less;
    forall i | 0 <= i < |head| ensures head[i].0 in structural { assert head[i] in head; }
    forall i | 0 <= i < |rest| ensures rest[i].0 !in structural { assert rest[i] in rest; }
    assert InOrder(structural, head + rest);
    OrderedIsUnique(structural, head + rest);
  }

  lemma OrderedIsUnique(structural: seq<string>, entries: seq<Entry>)
    requires InOrder(structural, entries)
    ensures UniqueKeys(entries)
  {
    forall i, j | 0 <= i < j < |entries| ensures entries[i].0 != entries[j].0 {
      assert Precedes(structural, entries[i].0, entries[j].0);
      LessIsStrict(entries[i].0);
    }
  }

  /** A set-like list is written as its rendered items, each once, ascending by text. */
  lemma SetListsAscend(style: Style, key: string, items: seq<Scalar>)
    requires style.setLike(key) && items != [] && RenderItems(style, items, key).Ok?
    ensures var rendered := RenderItems(style, items, key).value;
            exists listed :: StrictlyAscending(listed, RenderedLess) && (forall y :: y in listed <==> y in rendered)
                             && EmitEntry(style, key, Many(items)) == Ok(key + ":\n" + ItemLines(listed))
  {
    var rendered := RenderItems(style, items, key).value;
    RenderedOrder();
    hide RenderItems, RenderedLess, Sort, Dedup;
    SortSorts(rendered, RenderedLess);
    DedupStrict(Sort(rendered, RenderedLess), RenderedLess);
    var listed := Dedup(Sort(rendered, RenderedLess));
    assert EmitEntry(style, key, Many(items)) == Ok(key + ":\n" + ItemLines(listed));
  }

  // ---- What the bytes depend on ----

  /** Two lists of the same elements, in any order and with any repetition. */
  predicate SameElements<T(==)>(s: seq<T>, t: seq<T>) {
    (forall x :: x in s ==> x in t) && (forall x :: x in t ==> x in s)
  }

  /** Equal values, or set-like lists of the same items. */
  predicate SameValue(style: Style, key: string, v: Value, w: Value) {
    v == w || (style.setLike(key) && v.Many? && w.Many? && SameElements(v.items, w.items))
  }

  /** A relation between the values of two entry lists that agree on their keys. */
  ghost predicate Alike(s: seq<Entry>, t: seq<Entry>, same: (string, Value, Value) -> bool) {
    |s| == |t| && forall i :: 0 <= i < |s| ==> s[i].0 == t[i].0 && same(s[i].0, s[i].1, t[i].1)
  }

  /** The same keys, and related values under each of those a test retains. */
  ghost predicate SameMap(a: seq<Entry>, b: seq<Entry>, retained: string -> bool, same: (string, Value, Value) -> bool)
  {
    forall key :: retained(key) ==>
      match Get(a, key)
      case None => Get(b, key).None?
      case Some(v) => Get(b, key).Some? && same(key, v, Get(b, key).value)
  }

  /** Every item of a list can be written, or the list's error is the same for all orders. */
  lemma {:induction false} ItemsRender(style: Style, items: seq<Scalar>, key: string)
    ensures var r := RenderItems(style, items, key);
            if r.Ok? then
              |r.value| == |items|
              && forall i :: 0 <= i < |items| ==> RenderItem(style, items[i], key) == Ok(r.value[i])
            else r.error == NonFiniteNumber(key) && exists x :: x in items && RenderItem(style, x, key).Err?
  {
    hide RenderItem;
    ItemError(style, key);
    if items != [] {
      ItemsRender(style, items[1..], key);
      if RenderItem(style, items[0], key).Err? { assert items[0] in items; }
    }
  }

  lemma ItemError(style: Style, key: string)
    ensures forall item :: RenderItem(style, item, key).Err? ==>
              RenderItem(style, item, key).error == NonFiniteNumber(key)
  {
  }

  lemma SetRendersAlike(style: Style, s: seq<Scalar>, t: seq<Scalar>, key: string)
    requires SameElements(s, t)
    ensures var r, q := RenderItems(style, s, key), RenderItems(style, t, key);
            if r.Ok? then q.Ok? && Dedup(Sort(r.value, RenderedLess)) == Dedup(Sort(q.value, RenderedLess)) else q == r
  {
    hide RenderItem, RenderItems, RenderedLess, Sort, Dedup;
    ItemsRender(style, s, key);
    ItemsRender(style, t, key);
    var r, q := RenderItems(style, s, key), RenderItems(style, t, key);
    if r.Ok? && q.Ok? {
      RenderedWithin(style, s, t, key, r.value, q.value);
      RenderedWithin(style, t, s, key, q.value, r.value);
      RenderedOrder();
      SortDedupDependsOnSet(r.value, q.value, RenderedLess);
    }
  }

  lemma RenderedWithin(style: Style, s: seq<Scalar>, t: seq<Scalar>, key: string, r: seq<Rendered>, q: seq<Rendered>)
    requires forall x :: x in s ==> x in t
    requires |r| == |s| && forall i :: 0 <= i < |s| ==> RenderItem(style, s[i], key) == Ok(r[i])
    requires |q| == |t| && forall i :: 0 <= i < |t| ==> RenderItem(style, t[i], key) == Ok(q[i])
    ensures forall y :: y in r ==> y in q
  {
    hide RenderItem;
    forall y | y in r ensures y in q {
      var i :| 0 <= i < |r| && r[i] == y;
      assert s[i] in t;
      var j :| 0 <= j < |t| && t[j] == s[i];
      assert q[j] == y;
    }
  }

  /** Related values of one key are written as the same bytes. */
  lemma EntryDependsOnSet(style: Style, key: string, v: Value, w: Value)
    requires SameValue(style, key, v, w)
    ensures EmitEntry(style, key, v) == EmitEntry(style, key, w)
  {
    hide RenderItems, Sort, Dedup, EmitScalar;
    if v != w {
      SetRendersAlike(style, v.items, w.items, key);
      assert v.items == [] <==> w.items == [] by {
        assert v.items != [] ==> v.items[0] in v.items;
        assert w.items != [] ==> w.items[0] in w.items;
      }
    }
  }

  lemma {:induction false} EmitAllAlike(style: Style, s: seq<Entry>, t: seq<Entry>)
    requires Alike(s, t, (key, v, w) => SameValue(style, key, v, w))
    ensures EmitAll(style, s) == EmitAll(style, t)
    decreases |s|
  {
    hide EmitEntry, SameValue;
    if s != [] {
      var n := |s| - 1;
      EmitAllAlike(style, s[..n], t[..n]);
      EntryDependsOnSet(style, s[n].0, s[n].1, t[n].1);
    }
  }

  lemma AlikeConcat(s: seq<Entry>, t: seq<Entry>, u: seq<Entry>, v: seq<Entry>, same: (string, Value, Value) -> bool)
    requires Alike(s, t, same) && Alike(u, v, same)
    ensures Alike(s + u, t + v, same)
  {
  }

  lemma {:induction false} PresentAlike(a: seq<Entry>, b: seq<Entry>, keys: seq<string>,
                                        same: (string, Value, Value) -> bool)
    requires SameMap(a, b, key => true, same)
    ensures Alike(Present(a, keys), Present(b, keys), same)
    decreases |keys|
  {
    hide Get;
    if keys != [] {
      var n := |keys| - 1;
      PresentAlike(a, b, keys[..n], same);
      assert (key => true)(keys[n]);
    }
  }

  lemma {:induction false} SortedHolds(entries: seq<Entry>, excluded: seq<string>, key: string)
    requires UniqueKeys(entries)
    ensures var s := Sort(Without(entries, excluded), ByKey);
            AscendingKeys(s)
            && (forall i :: 0 <= i < |s| ==> s[i].0 !in excluded && Get(entries, s[i].0) == Some(s[i].1))
            && (Get(entries, key).Some? && key !in excluded ==> key in Keys(s))
  {
    hide Get, Without, Sort, AscendingKeys, UniqueKeys;
    WithoutHolds(entries, excluded);
    SortByKey(Without(entries, excluded));
    var s := Sort(Without(entries, excluded), ByKey);
    forall i | 0 <= i < |s| ensures s[i].0 !in excluded && Get(entries, s[i].0) == Some(s[i].1) {
      assert s[i] in s;
      GetIn(entries, s[i].0);
      var j :| 0 <= j < |entries| && entries[j] == s[i];
    }
    GetIn(entries, key);
    if Get(entries, key).Some? && key !in excluded {
      var e := (key, Get(entries, key).value);
      assert e in s;
      var i :| 0 <= i < |s| && s[i] == e;
      assert Keys(s)[i] == key;
    }
  }

  lemma KeysWithin(a: seq<Entry>, b: seq<Entry>, excluded: seq<string>, same: (string, Value, Value) -> bool,
                   key: string)
    requires UniqueKeys(a) && UniqueKeys(b) && SameMap(a, b, key => key !in excluded, same)
    ensures key in Keys(Sort(Without(a, excluded), ByKey)) <==> key in Keys(Sort(Without(b, excluded), ByKey))
  {
    hide Get, Without, Sort, AscendingKeys, UniqueKeys;
    SortedHolds(a, excluded, key);
    SortedHolds(b, excluded, key);
    assert (key => key !in excluded)(key) == (key !in excluded);
    var s, t := Sort(Without(a, excluded), ByKey), Sort(Without(b, excluded), ByKey);
    if key in Keys(s) { var i :| 0 <= i < |s| && Keys(s)[i] == key; assert s[i].0 == key; }
    if key in Keys(t) { var i :| 0 <= i < |t| && Keys(t)[i] == key; assert t[i].0 == key; }
  }

  /** Sorted entries agree key by key whenever the maps they come from do. */
  lemma SortedAlike(a: seq<Entry>, b: seq<Entry>, excluded: seq<string>, same: (string, Value, Value) -> bool)
    requires UniqueKeys(a) && UniqueKeys(b) && SameMap(a, b, key => key !in excluded, same)
    ensures Alike(Sort(Without(a, excluded), ByKey), Sort(Without(b, excluded), ByKey), same)
  {
    var s, t := Sort(Without(a, excluded), ByKey), Sort(Without(b, excluded), ByKey);
    SortedHolds(a, excluded, "");
    SortedHolds(b, excluded, "");
    forall key ensures key in Keys(s) <==> key in Keys(t) { KeysWithin(a, b, excluded, same, key); }
    hide Get, Without, Sort, UniqueKeys, Less;
    TextOrder();
    AscendingUnique(Keys(s), Keys(t), Less);
    forall i | 0 <= i < |s| ensures s[i].0 == t[i].0 && same(s[i].0, s[i].1, t[i].1) {
      assert Keys(s)[i] == Keys(t)[i];
      assert (key => key !in excluded)(s[i].0);
    }
  }

  /**
   * The canonical bytes depend on nothing but the key-to-value map, the body, and set-like lists as
   * sets: never on the order of entries, or of items, or on repetition.
   */
  lemma CanonicalBytesDependOnMap(style: Style, a: Record, b: Record)
    requires UniqueKeys(a.entries) && UniqueKeys(b.entries)
    requires a.isNote == b.isNote && a.body == b.body
    requires SameMap(a.entries, b.entries, key => true, (key, v, w) => SameValue(style, key, v, w))
    ensures CanonicalText(style, a) == CanonicalText(style, b)
  {
    hide Get, Without, Sort, UniqueKeys, SameValue, EmitAll, Alike, Present;
    var same := (key, v, w) => SameValue(style, key, v, w);
    var structural := Structural(a);
    PresentAlike(a.entries, b.entries, structural, same);
    Retains(a.entries, b.entries, structural, same);
    SortedAlike(a.entries, b.entries, structural, same);
    AlikeConcat(Present(a.entries, structural), Present(b.entries, structural),
                Sort(Without(a.entries, structural), ByKey), Sort(Without(b.entries, structural), ByKey), same);
    EmitAllAlike(style, OrderedEntries(a.entries, structural), OrderedEntries(b.entries, structural));
  }

  lemma Retains(a: seq<Entry>, b: seq<Entry>, excluded: seq<string>, same: (string, Value, Value) -> bool)
    requires SameMap(a, b, key => true, same)
    ensures SameMap(a, b, key => key !in excluded, same)
  {
  }

  // ---- What the semantic bytes depend on ----

  /** Equal scalars, or datetimes of one instant, whatever offset each is spelled with. */
  predicate SameMeaning(x: Scalar, y: Scalar) {
    x == y || (x.DatetimeScalar? && y.DatetimeScalar? && SameInstant(x.datetime, y.datetime))
  }

  predicate MeansOneOf(x: Scalar, t: seq<Scalar>) {
    exists j :: 0 <= j < |t| && SameMeaning(x, t[j])
  }

  predicate MeansWithin(s: seq<Scalar>, t: seq<Scalar>) {
    forall i :: 0 <= i < |s| ==> MeansOneOf(s[i], t)
  }

  predicate SameSemantics(style: Style, key: string, v: Value, w: Value) {
    match v
    case One(x) => w.One? && SameMeaning(x, w.scalar)
    case Many(s) =>
      w.Many?
      && if style.setLike(key) then MeansWithin(s, w.items) && MeansWithin(w.items, s)
         else |s| == |w.items| && forall i :: 0 <= i < |s| ==> SameMeaning(s[i], w.items[i])
  }

  lemma MeaningNormalises(x: Scalar, y: Scalar)
    requires SameMeaning(x, y)
    ensures ToUtcScalar(x) == ToUtcScalar(y)
  {
  }

  lemma {:induction false} ItemsNormalise(items: seq<Scalar>)
    ensures var r := ToUtcItems(items);
            if r.Ok? then
              |r.value| == |items| && forall i :: 0 <= i < |items| ==> ToUtcScalar(items[i]) == Ok(r.value[i])
            else r.error == InvalidDatetime("") && exists i :: 0 <= i < |items| && ToUtcScalar(items[i]).Err?
  {
    if items != [] {
      ItemsNormalise(items[1..]);
      assert ToUtcScalar(items[0]).Err? ==> ToUtcScalar(items[0]).error == InvalidDatetime("");
      hide ToUtcScalar;
      var r := ToUtcItems(items[1..]);
      if ToUtcScalar(items[0]).Ok? && r.Err? {
        var i :| 0 <= i < |items[1..]| && ToUtcScalar(items[1..][i]).Err?;
        assert ToUtcScalar(items[i + 1]).Err?;
      }
    }
  }

  lemma NormalisedWithin(s: seq<Scalar>, t: seq<Scalar>)
    requires MeansWithin(s, t)
    ensures ToUtcItems(t).Ok? ==> ToUtcItems(s).Ok? && forall x :: x in ToUtcItems(s).value ==> x in ToUtcItems(t).value
  {
    ItemsNormalise(s);
    ItemsNormalise(t);
    hide ToUtcItems, ToUtcScalar, SameMeaning;
    forall i | 0 <= i < |s| ensures exists j :: 0 <= j < |t| && ToUtcScalar(s[i]) == ToUtcScalar(t[j]) {
      assert MeansOneOf(s[i], t);
      var j :| 0 <= j < |t| && SameMeaning(s[i], t[j]);
      MeaningNormalises(s[i], t[j]);
    }
  }

  lemma {:induction false} ListNormalises(s: seq<Scalar>, t: seq<Scalar>)
    requires |s| == |t| && forall i :: 0 <= i < |s| ==> SameMeaning(s[i], t[i])
    ensures ToUtcItems(s) == ToUtcItems(t)
  {
    hide ToUtcScalar, SameMeaning;
    if s != [] {
      MeaningNormalises(s[0], t[0]);
      ListNormalises(s[1..], t[1..]);
    }
  }

  lemma UtcEntryAlike(style: Style, key: string, v: Value, w: Value)
    requires SameSemantics(style, key, v, w)
    ensures EmitUtcEntry(style, key, v) == EmitUtcEntry(style, key, w)
  {
    hide EmitEntry, ToUtcScalar, SameMeaning, ToUtcItems;
    match v
    case One(x) => MeaningNormalises(x, w.scalar);
    case Many(s) =>
      if style.setLike(key) {
        NormalisedWithin(s, w.items);
        NormalisedWithin(w.items, s);
        ItemsNormalise(s);
        ItemsNormalise(w.items);
        if ToUtcItems(s).Ok? {
          EntryDependsOnSet(style, key, Many(ToUtcItems(s).value), Many(ToUtcItems(w.items).value));
        }
      } else {
        ListNormalises(s, w.items);
      }
  }

  lemma {:induction false} EmitUtcAllAlike(style: Style, s: seq<Entry>, t: seq<Entry>)
    requires Alike(s, t, (key, v, w) => SameSemantics(style, key, v, w))
    ensures EmitUtcAll(style, s) == EmitUtcAll(style, t)
    decreases |s|
  {
    hide EmitUtcEntry, SameSemantics;
    if s != [] {
      var n := |s| - 1;
      EmitUtcAllAlike(style, s[..n], t[..n]);
      UtcEntryAlike(style, s[n].0, s[n].1, t[n].1);
    }
  }

  /**
   * The semantic encoding is further blind to bookkeeping properties and to how an instant's offset
   * was spelled: records that agree on everything else have equal bytes.
   */
  lemma SemanticBytesIgnoreSpelling(style: Style, a: Record, b: Record)
    requires UniqueKeys(a.entries) && UniqueKeys(b.entries) && a.body == b.body
    requires SameMap(a.entries, b.entries, key => key !in SEMANTIC_EXCLUSIONS,
                     (key, v, w) => SameSemantics(style, key, v, w))
    ensures SemanticText(style, a) == SemanticText(style, b)
  {
    hide Get, Without, Sort, UniqueKeys, SameSemantics, EmitUtcAll, Alike;
    SortedAlike(a.entries, b.entries, SEMANTIC_EXCLUSIONS, (key, v, w) => SameSemantics(style, key, v, w));
    EmitUtcAllAlike(style, Sort(Without(a.entries, SEMANTIC_EXCLUSIONS), ByKey),
                    Sort(Without(b.entries, SEMANTIC_EXCLUSIONS), ByKey));
  }

  /** Reordering the entries changes nothing: only which pairs there are counts. */
  lemma EntryOrderDoesNotMatter(style: Style, a: Record, b: Record)
    requires UniqueKeys(a.entries) && UniqueKeys(b.entries)
    requires a.isNote == b.isNote && a.body == b.body && SameElements(a.entries, b.entries)
    ensures CanonicalText(style, a) == CanonicalText(style, b) && SemanticText(style, a) == SemanticText(style, b)
  {
    hide CanonicalText, SemanticText, UniqueKeys;
    forall key ensures Get(a.entries, key) == Get(b.entries, key) { GetAgrees(a.entries, b.entries, key); }
    ReflexiveMap(style, a.entries, b.entries);
    CanonicalBytesDependOnMap(style, a, b);
    SemanticBytesIgnoreSpelling(style, a, b);
  }

  lemma GetAgrees(a: seq<Entry>, b: seq<Entry>, key: string)
    requires UniqueKeys(a) && UniqueKeys(b) && SameElements(a, b)
    ensures Get(a, key) == Get(b, key)
  {
    hide Get, UniqueKeys;
    GetWithin(a, b, key);
    GetWithin(b, a, key);
  }

  lemma GetWithin(a: seq<Entry>, b: seq<Entry>, key: string)
    requires UniqueKeys(a) && UniqueKeys(b) && forall e :: e in a ==> e in b
    ensures Get(a, key).Some? ==> Get(b, key) == Get(a, key)
  {
    hide Get, UniqueKeys;
    GetIn(a, key);
    GetIn(b, key);
    if Get(a, key).Some? {
      var e := (key, Get(a, key).value);
      assert e in b;
      var i :| 0 <= i < |b| && b[i] == e;
    }
  }

  lemma ReflexiveMap(style: Style, a: seq<Entry>, b: seq<Entry>)
    requires forall key :: Get(a, key) == Get(b, key)
    ensures SameMap(a, b, key => true, (key, v, w) => SameValue(style, key, v, w))
    ensures SameMap(a, b, key => key !in SEMANTIC_EXCLUSIONS, (key, v, w) => SameSemantics(style, key, v, w))
  {
    hide Get, SameSemantics;
    forall key, v: Value ensures SameSemantics(style, key, v, v) { SemanticsReflexive(style, key, v); }
  }

  lemma SemanticsReflexive(style: Style, key: string, v: Value)
    ensures SameSemantics(style, key, v, v)
  {
    if v.Many? {
      forall i | 0 <= i < |v.items| ensures MeansOneOf(v.items[i], v.items) {
        assert SameMeaning(v.items[i], v.items[i]);
      }
    }
  }

  // ---- The serializers as they append ----

  function Appended(out: string, text: Result<string, EmitError>): Result<string, EmitError> {
    match text
    case Err(error) => Err(error)
    case Ok(more) => Ok(out + more)
  }

  method RenderList(style: Style, items: seq<Scalar>, key: string) returns (r: Result<seq<Rendered>, EmitError>)
    ensures r == RenderItems(style, items, key)
  {
    hide EmitScalar, RenderItem;
    var rendered: seq<Rendered> := [];
    assert items[0..] == items;
    RestRendered(style, items, key, 0, rendered);
    for i := 0 to |items|
      invariant RenderItems(style, items, key) == Prepended(rendered, RenderItems(style, items[i..], key))
    {
      RestRendered(style, items, key, i, rendered);
      var item := RenderItem(style, items[i], key);
      if item.Err? { return Err(item.error); }
      rendered := rendered + [item.value];
    }
    assert items[|items|..] == [];
    assert rendered + [] == rendered;
    r := Ok(rendered);
  }

  function Prepended(front: seq<Rendered>, rest: Result<seq<Rendered>, EmitError>): Result<seq<Rendered>, EmitError> {
    match rest
    case Err(error) => Err(error)
    case Ok(back) => Ok(front + back)
  }

  lemma RestRendered(style: Style, items: seq<Scalar>, key: string, i: nat, front: seq<Rendered>)
    requires i <= |items|
    ensures Prepended([], RenderItems(style, items, key)) == RenderItems(style, items, key)
    ensures i < |items| ==>
              Prepended(front, RenderItems(style, items[i..], key))
              == match RenderItem(style, items[i], key)
                 case Err(error) => Err(error)
                 case Ok(first) => Prepended(front + [first], RenderItems(style, items[i + 1..], key))
  {
    hide RenderItem;
    var all := RenderItems(style, items, key);
    if all.Ok? { assert [] + all.value == all.value; }
    if i < |items| {
      assert items[i..][1..] == items[i + 1..];
      var item, later := RenderItem(style, items[i], key), RenderItems(style, items[i + 1..], key);
      if item.Ok? && later.Ok? { assert front + ([item.value] + later.value) == front + [item.value] + later.value; }
    }
  }

  /** Appends one property's lines to the output. */
  method AppendEntry(style: Style, out: string, key: string, value: Value) returns (r: Result<string, EmitError>)
    ensures r == Appended(out, EmitEntry(style, key, value))
  {
    hide EmitScalar, RenderItems, Sort, Dedup;
    match value
    case One(scalar) =>
      var text := EmitScalar(style, scalar, key);
      if text.Err? { return Err(text.error); }
      assert out + key + ": " + text.value + "\n" == out + (key + ": " + text.value + "\n");
      r := Ok(out + key + ": " + text.value + "\n");
    case Many(items) =>
      if items == [] {
        assert out + "" == out;
        return Ok(out);
      }
      var rendered := RenderList(style, items, key);
      if rendered.Err? { return Err(rendered.error); }
      var listed := if style.setLike(key) then Dedup(Sort(rendered.value, RenderedLess)) else rendered.value;
      var text := out + key + ":\n";
      for i := 0 to |listed|
        invariant text == out + key + ":\n" + ItemLines(listed[..i])
      {
        assert listed[..i + 1][..i] == listed[..i];
        text := text + "  - " + listed[i].1 + "\n";
      }
      assert listed[..|listed|] == listed;
      assert text == out + (key + ":\n" + ItemLines(listed));
      r := Ok(text);
  }

  /** The structural keys a record carries, then the rest by ascending key. */
  method OrderEntries(entries: seq<Entry>, structural: seq<string>) returns (ordered: seq<Entry>)
    ensures ordered == OrderedEntries(entries, structural)
  {
    hide Sort, Get;
    var rest: seq<Entry> := FilterEntries(entries, structural);
    rest := Sort(rest, ByKey);
    ordered := [];
    for i := 0 to |structural|
      invariant ordered == Present(entries, structural[..i])
    {
      assert structural[..i + 1][..i] == structural[..i];
      match Get(entries, structural[i]) {
        case Some(value) => ordered := ordered + [(structural[i], value)];
        case None =>
      }
    }
    assert structural[..|structural|] == structural;
    ordered := ordered + rest;
  }

  method FilterEntries(entries: seq<Entry>, excluded: seq<string>) returns (kept: seq<Entry>)
    ensures kept == Without(entries, excluded)
  {
    kept := [];
    for i := 0 to |entries|
      invariant kept == Without(entries[..i], excluded)
    {
      assert entries[..i + 1][..i] == entries[..i];
      if entries[i].0 !in excluded { kept := kept + [entries[i]]; }
    }
    assert entries[..|entries|] == entries;
  }

  lemma {:induction false} StoppedEmission(style: Style, entries: seq<Entry>, n: nat)
    requires n <= |entries| && EmitAll(style, entries[..n]).Err?
    ensures EmitAll(style, entries) == EmitAll(style, entries[..n])
    decreases |entries|
  {
    hide EmitEntry;
    if n < |entries| {
      assert entries[..|entries| - 1][..n] == entries[..n];
      StoppedEmission(style, entries[..|entries| - 1], n);
    } else {
      assert entries[..n] == entries;
    }
  }

  /** Serializes a record to its canonical byte form. */
  method CanonicalRecordString(style: Style, record: Record) returns (r: Result<string, EmitError>)
    ensures r == CanonicalText(style, record)
  {
    hide EmitEntry, OrderedEntries;
    var ordered := OrderEntries(record.entries, Structural(record));
    var out := "---\n";
    for i := 0 to |ordered|
      invariant EmitAll(style, ordered[..i]).Ok? && out == "---\n" + EmitAll(style, ordered[..i]).value
    {
      assert ordered[..i + 1][..i] == ordered[..i];
      var next := AppendEntry(style, out, ordered[i].0, ordered[i].1);
      if next.Err? {
        StoppedEmission(style, ordered, i + 1);
        return Err(next.error);
      }
      out := next.value;
    }
    assert ordered[..|ordered|] == ordered;
    r := Ok(out + "---\n\n" + record.body);
  }

  lemma {:induction false} StoppedUtcEmission(style: Style, entries: seq<Entry>, n: nat)
    requires n <= |entries| && EmitUtcAll(style, entries[..n]).Err?
    ensures EmitUtcAll(style, entries) == EmitUtcAll(style, entries[..n])
    decreases |entries|
  {
    hide EmitUtcEntry;
    if n < |entries| {
      assert entries[..|entries| - 1][..n] == entries[..n];
      StoppedUtcEmission(style, entries[..|entries| - 1], n);
    } else {
      assert entries[..n] == entries;
    }
  }

  /** Serializes the semantic encoding of a record: exclusions removed, instants in UTC. */
  method SemanticRecordString(style: Style, record: Record) returns (r: Result<string, EmitError>)
    ensures r == SemanticText(style, record)
  {
    hide EmitEntry, Sort, Without, ToUtcValue;
    var retained := FilterEntries(record.entries, SEMANTIC_EXCLUSIONS);
    retained := Sort(retained, ByKey);
    var out := "---\n";
    for i := 0 to |retained|
      invariant EmitUtcAll(style, retained[..i]).Ok? && out == "---\n" + EmitUtcAll(style, retained[..i]).value
    {
      assert retained[..i + 1][..i] == retained[..i];
      var converted := ToUtcValue(retained[i].1);
      if converted.Err? {
        StoppedUtcEmission(style, retained, i + 1);
        return Err(converted.error);
      }
      var next := AppendEntry(style, out, retained[i].0, converted.value);
      if next.Err? {
        StoppedUtcEmission(style, retained, i + 1);
        return Err(next.error);
      }
      out := next.value;
    }
    assert retained[..|retained|] == retained;
    r := Ok(out + "---\n\n" + record.body);
  }
}
