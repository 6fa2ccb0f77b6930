/** The byte forms of a record line by line: how they are laid out, and that a record can be read back from them. */
module CanonicalLines {
  import opened Wrappers
  import opened Decimal
  import opened Datetimes
  import opened DatetimeText
  import opened Ordering
  import opened Sorting
  import opened Canonical

  // ---- Lines ----

  predicate OneLine(s: string) { forall k :: 0 <= k < |s| ==> s[k] != '\n' }

  function Join(lines: seq<string>): string {
    if lines == [] then "" else lines[0] + "\n" + Join(lines[1..])
  }

  lemma {:induction false} JoinConcat(a: seq<string>, b: seq<string>)
    ensures Join(a + b) == Join(a) + Join(b)
  {
    if a == [] {
      assert a + b == b;
    } else {
      assert (a + b)[1..] == a[1..] + b;
      JoinConcat(a[1..], b);
    }
  }

  /** A text splits at its first line feed in one way only. */
  lemma SplitsOnce(a: string, restA: string, b: string, restB: string)
    requires OneLine(a) && OneLine(b) && a + "\n" + restA == b + "\n" + restB
    ensures a == b && restA == restB
  {
    var text := a + "\n" + restA;
    assert text[|a|] == '\n' && text[|b|] == '\n';
    assert forall k :: 0 <= k < |a| ==> text[k] == a[k];
    assert forall k :: 0 <= k < |b| ==> (b + "\n" + restB)[k] == b[k];
    assert |a| == |b|;
    assert a == text[..|a|] == b;
    assert restA == text[|a| + 1..] == (b + "\n" + restB)[|b| + 1..] == restB;
  }

  /** Lines other than the closing fence are read back from the text that holds them before it. */
  lemma {:induction false} LinesReadBack(a: seq<string>, restA: string, b: seq<string>, restB: string)
    requires forall i :: 0 <= i < |a| ==> OneLine(a[i]) && a[i] != "---"
    requires forall i :: 0 <= i < |b| ==> OneLine(b[i]) && b[i] != "---"
    requires Join(a) + ("---\n" + restA) == Join(b) + ("---\n" + restB)
    ensures a == b && restA == restB
    decreases |a|
  {
    FenceLine(restA);
    FenceLine(restB);
    if a == [] && b == [] {
      SplitsOnce("---", restA, "---", restB);
    } else if a == [] {
      FrontLine(b, restB);
      SplitsOnce("---", restA, b[0], Join(b[1..]) + ("---\n" + restB));
    } else if b == [] {
      FrontLine(a, restA);
      SplitsOnce(a[0], Join(a[1..]) + ("---\n" + restA), "---", restB);
    } else {
      FrontLine(a, restA);
      FrontLine(b, restB);
      SplitsOnce(a[0], Join(a[1..]) + ("---\n" + restA), b[0], Join(b[1..]) + ("---\n" + restB));
      LinesReadBack(a[1..], restA, b[1..], restB);
      assert a == [a[0]] + a[1..] && b == [b[0]] + b[1..];
    }
  }

  lemma FenceLine(rest: string)
    ensures Join([]) + ("---\n" + rest) == "---" + "\n" + rest && OneLine("---")
  {
  }

  lemma FrontLine(lines: seq<string>, rest: string)
    requires lines != []
    ensures Join(lines) + ("---\n" + rest) == lines[0] + "\n" + (Join(lines[1..]) + ("---\n" + rest))
  {
    var later, fence := Join(lines[1..]), "---\n" + rest;
    assert lines[0] + "\n" + later + fence == lines[0] + "\n" + (later + fence);
  }

  // ---- Scalars as they are spelled ----

  predicate Spellable(x: Scalar) { !(x.NumberScalar? && x.number.NonFinite?) }

  function Spelled(style: Style, x: Scalar): string {
    match x
    case TextScalar(text) => if style.plain(text) then text else style.quoted(text)
    case NumberScalar(Finite(value)) => style.number(value)
    case NumberScalar(NonFinite) => ""
    case BoolScalar(flag) => if flag then "true" else "false"
    case DateScalar(date) => RenderDate(date)
    case DatetimeScalar(datetime) => Render(datetime)
  }

  /** An item of a set-like list sorts by its text, or else by its spelling. */
  function SortText(style: Style, x: Scalar): string { if x.TextScalar? then x.text else Spelled(style, x) }

  function Pair(style: Style, x: Scalar): Rendered { (SortText(style, x), Spelled(style, x)) }

  predicate AllSpellable(items: seq<Scalar>) { forall i :: 0 <= i < |items| ==> Spellable(items[i]) }

  lemma ScalarSpelled(style: Style, x: Scalar, key: string)
    ensures EmitScalar(style, x, key) == if Spellable(x) then Ok(Spelled(style, x)) else Err(NonFiniteNumber(key))
    ensures RenderItem(style, x, key) == if Spellable(x) then Ok(Pair(style, x)) else Err(NonFiniteNumber(key))
  {
    hide RenderDate, Render;
  }

  function Pairs(style: Style, items: seq<Scalar>): (pairs: seq<Rendered>)
    ensures |pairs| == |items| && forall i :: 0 <= i < |items| ==> pairs[i] == Pair(style, items[i])
  {
    seq(|items|, i requires 0 <= i < |items| => Pair(style, items[i]))
  }

  lemma {:induction false} ItemsSpelled(style: Style, items: seq<Scalar>, key: string)
    ensures RenderItems(style, items, key)
         == if AllSpellable(items) then Ok(Pairs(style, items)) else Err(NonFiniteNumber(key))
  {
    hide RenderItem, Spellable, Pair;
    if items != [] {
      ScalarSpelled(style, items[0], key);
      ItemsSpelled(style, items[1..], key);
      assert AllSpellable(items) <==> Spellable(items[0]) && AllSpellable(items[1..]) by {
        assert items == [items[0]] + items[1..];
      }
      assert Pairs(style, items) == [Pair(style, items[0])] + Pairs(style, items[1..]);
    }
  }

  // ---- Entries as they are written ----

  function Listed(style: Style, key: string, items: seq<Scalar>): seq<Rendered> {
    if style.setLike(key) then Dedup(Sort(Pairs(style, items), RenderedLess)) else Pairs(style, items)
  }

  function Bullets(listed: seq<Rendered>): (lines: seq<string>)
    ensures |lines| == |listed| && forall i :: 0 <= i < |listed| ==> lines[i] == "  - " + listed[i].1
  {
    seq(|listed|, i requires 0 <= i < |listed| => "  - " + listed[i].1)
  }

  /** One property's lines: `key: scalar`, or `key:` and a line for each item, or nothing for an empty list. */
  function EntryLines(style: Style, e: Entry): seq<string> {
    match e.1
    case One(x) => [e.0 + ": " + Spelled(style, x)]
    case Many(items) => if items == [] then [] else [e.0 + ":"] + Bullets(Listed(style, e.0, items))
  }

  predicate WritableValue(v: Value) {
    match v
    case One(x) => Spellable(x)
    case Many(items) => AllSpellable(items)
  }

  lemma {:induction false} ItemLinesJoin(listed: seq<Rendered>)
    ensures ItemLines(listed) == Join(Bullets(listed))
    decreases |listed|
  {
    if listed != [] {
      var n := |listed| - 1;
      ItemLinesJoin(listed[..n]);
      assert Bullets(listed) == Bullets(listed[..n]) + ["  - " + listed[n].1];
      JoinConcat(Bullets(listed[..n]), ["  - " + listed[n].1]);
      LoneLine("  - " + listed[n].1);
      var early, text := ItemLines(listed[..n]), listed[n].1;
      assert early + "  - " + text + "\n" == early + ("  - " + text + "\n");
    }
  }

  lemma LoneLine(line: string)
    ensures Join([line]) == line + "\n"
  {
    assert [line][1..] == [];
    assert line + "\n" + "" == line + "\n";
  }

  lemma EntryWritten(style: Style, e: Entry)
    ensures EmitEntry(style, e.0, e.1)
         == if WritableValue(e.1) then Ok(Join(EntryLines(style, e))) else Err(NonFiniteNumber(e.0))
  {
    hide EmitScalar, RenderItems, Sort, Dedup, Spellable, Spelled;
    match e.1
    case One(x) =>
      ScalarSpelled(style, x, e.0);
      LoneLine(e.0 + ": " + Spelled(style, x));
    case Many(items) =>
      ItemsSpelled(style, items, e.0);
      var listed := Listed(style, e.0, items);
      ItemLinesJoin(listed);
      JoinConcat([e.0 + ":"], Bullets(listed));
      LoneLine(e.0 + ":");
      assert e.0 + ":" + "\n" == e.0 + ":\n";
  }

  function AllLines(style: Style, entries: seq<Entry>): seq<string> {
    if entries == [] then []
    else AllLines(style, entries[..|entries| - 1]) + EntryLines(style, entries[|entries| - 1])
  }

  predicate Writable(entries: seq<Entry>) { forall i :: 0 <= i < |entries| ==> WritableValue(entries[i].1) }

  lemma {:induction false} EntriesWritten(style: Style, entries: seq<Entry>)
    requires Writable(entries)
    ensures EmitAll(style, entries) == Ok(Join(AllLines(style, entries)))
    decreases |entries|
  {
    hide EmitEntry, EntryLines, WritableValue;
    if entries != [] {
      var n := |entries| - 1;
      EntriesWritten(style, entries[..n]);
      EntryWritten(style, entries[n]);
      JoinConcat(AllLines(style, entries[..n]), EntryLines(style, entries[n]));
    }
  }

  /** The `i`th entry is the first that cannot be written. */
  predicate FirstUnwritable(entries: seq<Entry>, i: nat) {
    i < |entries| && !WritableValue(entries[i].1) && forall j :: 0 <= j < i ==> WritableValue(entries[j].1)
  }

  lemma EntryStops(style: Style, entries: seq<Entry>, i: nat)
    requires FirstUnwritable(entries, i)
    ensures EmitAll(style, entries) == Err(NonFiniteNumber(entries[i].0))
  {
    hide EmitEntry, WritableValue;
    EntriesWritten(style, entries[..i]);
    EntryWritten(style, entries[i]);
    assert entries[..i + 1][..i] == entries[..i];
    StoppedEmission(style, entries, i + 1);
  }

  // ---- The layout of the canonical form ----

  /** The properties that come first, in their order. */
  function Leading(isNote: bool): seq<string> {
    if isNote then ["id", "instance_id", "field_id", "type", "occurred_at"] else ["id", "type"]
  }

  lemma LeadingExactly(record: Record)
    ensures Structural(record) == Leading(record.isNote) && Distinct(Leading(record.isNote))
  {
  }

  /** A set-like list is written once per item, ascending by text; any other list is written as it stands. */
  lemma ListedExactly(style: Style, key: string, items: seq<Scalar>)
    ensures var listed := Listed(style, key, items);
            if style.setLike(key) then
              (forall y :: y in listed <==> y in Pairs(style, items))
              && forall i, j :: 0 <= i < j < |listed| ==>
                   Less(listed[i].0, listed[j].0) || (listed[i].0 == listed[j].0 && Less(listed[i].1, listed[j].1))
            else listed == Pairs(style, items)
  {
    if style.setLike(key) {
      RenderedOrder();
      hide Sort, Dedup, Less;
      SortSorts(Pairs(style, items), RenderedLess);
      DedupStrict(Sort(Pairs(style, items), RenderedLess), RenderedLess);
    }
  }

  predicate InCanonicalOrder(record: Record, ordered: seq<Entry>) {
    && (forall e :: e in ordered ==> e in record.entries) && (forall e :: e in record.entries ==> e in ordered)
    && InOrder(Leading(record.isNote), ordered) && UniqueKeys(ordered)
  }

  /** The text between the fences and after them. */
  function Fenced(lines: seq<string>, body: string): string { "---\n" + Join(lines) + ("---\n\n" + body) }

  lemma FencedText(style: Style, entries: seq<Entry>, body: string)
    requires Writable(entries)
    ensures Framed(EmitAll(style, entries), body) == Ok(Fenced(AllLines(style, entries), body))
  {
    EntriesWritten(style, entries);
    hide EmitAll, AllLines, Join;
    var text := Join(AllLines(style, entries));
    assert "---\n" + text + "---\n\n" + body == "---\n" + text + ("---\n\n" + body);
  }

  /**
   * A record is written as a fence, each property's lines in canonical order, a fence, an empty line
   * and the body; the first property that holds a number that is not finite is the error.
   */
  lemma CanonicalLayout(style: Style, record: Record)
    returns (ordered: seq<Entry>)
    requires UniqueKeys(record.entries)
    ensures InCanonicalOrder(record, ordered)
    ensures if Writable(ordered) then CanonicalText(style, record) == Ok(Fenced(AllLines(style, ordered), record.body))
            else exists i: nat :: FirstUnwritable(ordered, i)
                                  && CanonicalText(style, record) == Err(NonFiniteNumber(ordered[i].0))
  {
    LeadingExactly(record);
    CanonicalOrder(record.entries, Leading(record.isNote));
    ordered := OrderedEntries(record.entries, Leading(record.isNote));
    hide OrderedEntries, WritableValue, UniqueKeys, InOrder, Leading;
    if Writable(ordered) {
      FencedText(style, ordered, record.body);
    } else {
      var i := FirstOfUnwritable(ordered);
      EntryStops(style, ordered, i);
    }
  }

  lemma FirstOfUnwritable(entries: seq<Entry>) returns (i: nat)
    requires !Writable(entries)
    ensures FirstUnwritable(entries, i)
  {
    i := 0;
    while WritableValue(entries[i].1)
      invariant i < |entries| && forall j :: 0 <= j < i ==> WritableValue(entries[j].1)
      decreases |entries| - i
    {
      i := i + 1;
    }
  }

  // ---- The layout of the semantic form ----

  /** Bookkeeping properties, which say nothing about the record's meaning. */
  predicate Bookkeeping(key: string) {
    || key == "captured_at" || key == "collected_by" || key == "content_hash" || key == "entities"
    || key == "field_id" || key == "id" || key == "instance_id" || key == "related" || key == "source_version"
  }

  lemma BookkeepingExactly(key: string)
    ensures key in SEMANTIC_EXCLUSIONS <==> Bookkeeping(key)
  {
  }

  predicate InUtc(x: Scalar, y: Scalar) {
    if x.DatetimeScalar? then ToUtc(x.datetime).Ok? && y == DatetimeScalar(ToUtc(x.datetime).value) else y == x
  }

  predicate HasUtc(x: Scalar) { x.DatetimeScalar? ==> ToUtc(x.datetime).Ok? }

  predicate ValueInUtc(v: Value, w: Value) {
    match v
    case One(x) => w.One? && InUtc(x, w.scalar)
    case Many(items) =>
      w.Many? && |w.items| == |items| && forall i :: 0 <= i < |items| ==> InUtc(items[i], w.items[i])
  }

  predicate ValueHasUtc(v: Value) {
    match v
    case One(x) => HasUtc(x)
    case Many(items) => forall i :: 0 <= i < |items| ==> HasUtc(items[i])
  }

  lemma UtcExactly(v: Value)
    ensures if ValueHasUtc(v) then ToUtcValue(v).Ok? && ValueInUtc(v, ToUtcValue(v).value)
            else ToUtcValue(v) == Err(InvalidDatetime(""))
  {
    hide ToUtc;
    if v.Many? {
      ItemsNormalise(v.items);
      hide ToUtcItems;
      var r := ToUtcItems(v.items);
      if r.Ok? {
        forall i | 0 <= i < |v.items| ensures HasUtc(v.items[i]) && InUtc(v.items[i], r.value[i]) {
          assert ToUtcScalar(v.items[i]) == Ok(r.value[i]);
        }
      }
    }
  }

  predicate EntriesInUtc(entries: seq<Entry>, utc: seq<Entry>) {
    |utc| == |entries|
    && forall i :: 0 <= i < |entries| ==> utc[i].0 == entries[i].0 && ValueInUtc(entries[i].1, utc[i].1)
  }

  lemma WritableInUtc(v: Value, w: Value)
    requires ValueInUtc(v, w)
    ensures WritableValue(v) <==> WritableValue(w)
  {
    hide ToUtc;
    if v.Many? {
      forall i | 0 <= i < |v.items| ensures Spellable(v.items[i]) <==> Spellable(w.items[i]) {
        assert InUtc(v.items[i], w.items[i]);
      }
    }
  }

  function UtcEntries(entries: seq<Entry>): (utc: seq<Entry>)
    requires forall i :: 0 <= i < |entries| ==> ToUtcValue(entries[i].1).Ok?
    ensures |utc| == |entries|
    ensures forall i :: 0 <= i < |entries| ==> utc[i] == (entries[i].0, ToUtcValue(entries[i].1).value)
  {
    seq(|entries|, i requires 0 <= i < |entries| => (entries[i].0, ToUtcValue(entries[i].1).value))
  }

  lemma {:induction false} UtcWritten(style: Style, entries: seq<Entry>)
    requires forall i :: 0 <= i < |entries| ==> ToUtcValue(entries[i].1).Ok?
    ensures EmitUtcAll(style, entries) == EmitAll(style, UtcEntries(entries))
    decreases |entries|
  {
    hide EmitEntry, ToUtcValue;
    if entries != [] {
      var n := |entries| - 1;
      UtcWritten(style, entries[..n]);
      assert UtcEntries(entries)[..n] == UtcEntries(entries[..n]);
    }
  }

  predicate Retained(record: Record, retained: seq<Entry>) {
    && (forall e :: e in retained ==> e in record.entries && !Bookkeeping(e.0))
    && (forall e :: e in record.entries && !Bookkeeping(e.0) ==> e in retained)
    && AscendingKeys(retained)
  }

  /** The first retained property that has no UTC form or cannot be written. */
  predicate FirstUnsayable(entries: seq<Entry>, i: nat) {
    && i < |entries| && !(ValueHasUtc(entries[i].1) && WritableValue(entries[i].1))
    && forall j :: 0 <= j < i ==> ValueHasUtc(entries[j].1) && WritableValue(entries[j].1)
  }

  lemma EntriesUtc(entries: seq<Entry>)
    requires forall i :: 0 <= i < |entries| ==> ValueHasUtc(entries[i].1)
    ensures forall i :: 0 <= i < |entries| ==> ToUtcValue(entries[i].1).Ok?
    ensures EntriesInUtc(entries, UtcEntries(entries))
    ensures Writable(UtcEntries(entries)) <==> Writable(entries)
  {
    hide ToUtcValue, ValueHasUtc, ValueInUtc, WritableValue;
    forall i | 0 <= i < |entries| ensures ToUtcValue(entries[i].1).Ok? { UtcExactly(entries[i].1); }
    var utc := UtcEntries(entries);
    forall i | 0 <= i < |entries|
      ensures ValueInUtc(entries[i].1, utc[i].1) && (WritableValue(entries[i].1) <==> WritableValue(utc[i].1))
    {
      UtcExactly(entries[i].1);
      WritableInUtc(entries[i].1, utc[i].1);
    }
  }

  lemma FrontInUtc(style: Style, entries: seq<Entry>)
    requires forall i :: 0 <= i < |entries| ==> ValueHasUtc(entries[i].1) && WritableValue(entries[i].1)
    ensures EmitUtcAll(style, entries).Ok?
  {
    hide ToUtcValue, ValueHasUtc, ValueInUtc, WritableValue, EmitAll;
    EntriesUtc(entries);
    UtcWritten(style, entries);
    EntriesWritten(style, UtcEntries(entries));
  }

  lemma UnsayableEntry(style: Style, e: Entry)
    requires !(ValueHasUtc(e.1) && WritableValue(e.1))
    ensures EmitUtcEntry(style, e.0, e.1) == Err(if ValueHasUtc(e.1) then NonFiniteNumber(e.0) else InvalidDatetime(""))
  {
    UtcExactly(e.1);
    hide EmitEntry, ToUtcValue, ValueHasUtc, ValueInUtc, WritableValue;
    if ValueHasUtc(e.1) {
      var utc := ToUtcValue(e.1).value;
      WritableInUtc(e.1, utc);
      EntryWritten(style, (e.0, utc));
    }
  }

  lemma UtcEntryStops(style: Style, entries: seq<Entry>, i: nat)
    requires FirstUnsayable(entries, i)
    ensures EmitUtcAll(style, entries)
         == Err(if ValueHasUtc(entries[i].1) then NonFiniteNumber(entries[i].0) else InvalidDatetime(""))
  {
    hide EmitUtcEntry, ValueHasUtc, WritableValue;
    FrontInUtc(style, entries[..i]);
    UnsayableEntry(style, entries[i]);
    assert entries[..i + 1][..i] == entries[..i];
    StoppedUtcEmission(style, entries, i + 1);
  }

  /**
   * The semantic form is laid out alike, from the properties that are not bookkeeping, by ascending
   * key and with every datetime in UTC.
   */
  lemma SemanticLayout(style: Style, record: Record)
    returns (retained: seq<Entry>, utc: seq<Entry>)
    requires UniqueKeys(record.entries)
    ensures Retained(record, retained)
    ensures if forall i :: 0 <= i < |retained| ==> ValueHasUtc(retained[i].1) && WritableValue(retained[i].1)
            then EntriesInUtc(retained, utc) && Writable(utc)
                 && SemanticText(style, record) == Ok(Fenced(AllLines(style, utc), record.body))
            else exists i: nat :: FirstUnsayable(retained, i)
                                  && SemanticText(style, record)
                                     == Err(if ValueHasUtc(retained[i].1) then NonFiniteNumber(retained[i].0)
                                            else InvalidDatetime(""))
  {
    retained := Sort(Without(record.entries, SEMANTIC_EXCLUSIONS), ByKey);
    RetainedHolds(record);
    hide Sort, Without, ToUtcValue, ValueHasUtc, ValueInUtc, WritableValue, AscendingKeys, Bookkeeping;
    if forall i :: 0 <= i < |retained| ==> ValueHasUtc(retained[i].1) && WritableValue(retained[i].1) {
      EntriesUtc(retained);
      utc := UtcEntries(retained);
      UtcWritten(style, retained);
      FencedText(style, utc, record.body);
    } else {
      var i := FirstOfUnsayable(retained);
      UtcEntryStops(style, retained, i);
      utc := [];
    }
  }

  lemma FirstOfUnsayable(entries: seq<Entry>) returns (i: nat)
    requires !(forall i :: 0 <= i < |entries| ==> ValueHasUtc(entries[i].1) && WritableValue(entries[i].1))
    ensures FirstUnsayable(entries, i)
  {
    hide ValueHasUtc, WritableValue;
    i := 0;
    while ValueHasUtc(entries[i].1) && WritableValue(entries[i].1)
      invariant i < |entries| && forall j :: 0 <= j < i ==> ValueHasUtc(entries[j].1) && WritableValue(entries[j].1)
      decreases |entries| - i
    {
      i := i + 1;
    }
  }

  lemma RetainedHolds(record: Record)
    requires UniqueKeys(record.entries)
    ensures Retained(record, Sort(Without(record.entries, SEMANTIC_EXCLUSIONS), ByKey))
  {
    WithoutHolds(record.entries, SEMANTIC_EXCLUSIONS);
    SortByKey(Without(record.entries, SEMANTIC_EXCLUSIONS));
    hide Sort, Without, AscendingKeys, UniqueKeys;
    forall key ensures key in SEMANTIC_EXCLUSIONS <==> Bookkeeping(key) { BookkeepingExactly(key); }
    hide Bookkeeping;
  }
}
