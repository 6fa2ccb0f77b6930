/** What can be read back from a record's byte forms: everything they are meant to say. */
module CanonicalReading {
  import opened Wrappers
  import opened Decimal
  import opened Datetimes
  import opened DatetimeText
  import opened Ordering
  import opened Sorting
  import opened Canonical
  import opened CanonicalLines

  // ---- What the text rules and the keys must be ----

  /** No text or number is spelled over more than one line. */
  ghost predicate OneLiner(style: Style) {
    && (forall text: string :: OneLine(if style.plain(text) then text else style.quoted(text)))
    && (forall value: real :: OneLine(style.number(value)))
  }

  predicate PlainKey(key: string) {
    (forall k :: 0 <= k < |key| ==> key[k] != '\n' && key[k] != ':') && (key != [] ==> key[0] != ' ')
  }

  predicate PlainKeys(entries: seq<Entry>) { forall i :: 0 <= i < |entries| ==> PlainKey(entries[i].0) }

  predicate HasScalar(v: Value, x: Scalar) {
    match v
    case One(y) => x == y
    case Many(items) => x in items
  }

  predicate Mentions(entries: seq<Entry>, x: Scalar) { exists e :: e in entries && HasScalar(e.1, x) }

  /** No two different scalars of two records are spelled alike. */
  ghost predicate Distinguishes(style: Style, s: seq<Entry>, t: seq<Entry>) {
    forall x, y :: Mentions(s, x) && Mentions(t, y) && Spelled(style, x) == Spelled(style, y) ==> x == y
  }

  // ---- Every line is one line, and shows whether it starts a property ----

  lemma {:induction false} PaddedOneLine(n: nat, width: nat)
    ensures OneLine(Padded(n, width))
  {
    PaddedReads(n, width);
    hide Padded;
    assert forall k :: 0 <= k < |Padded(n, width)| ==> IsDigit(Padded(n, width)[k]);
  }

  lemma {:induction false} TrimmedOneLine(s: string)
    requires OneLine(s)
    ensures OneLine(TrimZeros(s))
  {
    if s != [] && s[|s| - 1] == '0' { TrimmedOneLine(s[..|s| - 1]); }
  }

  lemma DateOneLine(d: Date)
    ensures OneLine(RenderDate(d))
  {
    hide Padded;
    PaddedOneLine(d.year, 4);
    PaddedOneLine(d.month, 2);
    PaddedOneLine(d.day, 2);
  }

  lemma DatetimeOneLine(t: Datetime)
    ensures OneLine(Render(t))
  {
    hide Padded, RenderDate, TrimZeros;
    DateOneLine(t.date);
    PaddedOneLine(t.hour, 2);
    PaddedOneLine(t.minute, 2);
    PaddedOneLine(t.second, 2);
    PaddedOneLine(t.nanos, 9);
    TrimmedOneLine(Padded(t.nanos, 9));
    PaddedOneLine(Magnitude(t.offsetMinutes) / 60, 2);
    PaddedOneLine(Magnitude(t.offsetMinutes) % 60, 2);
  }

  lemma SpelledOneLine(style: Style, x: Scalar)
    requires OneLiner(style)
    ensures OneLine(Spelled(style, x))
  {
    hide RenderDate, Render;
    match x
    case DateScalar(date) => DateOneLine(date);
    case DatetimeScalar(datetime) => DatetimeOneLine(datetime);
    case _ =>
  }

  /** A property's first line starts with its key, and its item lines with a space. */
  predicate IsHeader(line: string) { line != [] && line[0] != ' ' && exists k :: 0 <= k < |line| && line[k] == ':' }

  predicate IsItem(line: string) { line != [] && line[0] == ' ' }

  lemma EntryShape(style: Style, e: Entry)
    requires OneLiner(style) && PlainKey(e.0)
    ensures var lines := EntryLines(style, e);
            (forall i :: 0 <= i < |lines| ==> OneLine(lines[i]) && lines[i] != "---")
            && (lines != [] ==> IsHeader(lines[0])) && (forall i :: 1 <= i < |lines| ==> IsItem(lines[i]))
  {
    var lines, key := EntryLines(style, e), e.0;
    hide Spelled, Sort, Dedup;
    match e.1
    case One(x) =>
      SpelledOneLine(style, x);
      HeaderShape(key, " " + Spelled(style, x));
      assert key + ": " + Spelled(style, x) == key + ":" + (" " + Spelled(style, x));
    case Many(items) =>
      if items != [] {
        HeaderShape(key, "");
        assert key + ":" == key + ":" + "";
        forall i | 1 <= i < |lines| ensures OneLine(lines[i]) && lines[i] != "---" && IsItem(lines[i]) {
          ListedSpelled(style, key, items, i - 1);
        }
      }
  }

  lemma HeaderShape(key: string, rest: string)
    requires PlainKey(key) && OneLine(rest)
    ensures var line := key + ":" + rest; OneLine(line) && line != "---" && IsHeader(line)
  {
    var line := key + ":" + rest;
    assert line[|key|] == ':';
    assert "---"[0] == '-' && "---"[1] == '-' && "---"[2] == '-';
  }

  lemma ListedSpelled(style: Style, key: string, items: seq<Scalar>, i: nat)
    requires OneLiner(style) && i < |Listed(style, key, items)|
    ensures exists x :: x in items && Listed(style, key, items)[i] == Pair(style, x)
    ensures var line := "  - " + Listed(style, key, items)[i].1; OneLine(line) && line != "---" && IsItem(line)
  {
    ListedExactly(style, key, items);
    hide Sort, Dedup, Listed, Spelled;
    var listed, pairs := Listed(style, key, items), Pairs(style, items);
    assert listed[i] in listed;
    assert listed[i] in pairs;
    var j :| 0 <= j < |pairs| && pairs[j] == listed[i];
    assert items[j] in items;
    SpelledOneLine(style, items[j]);
    var line := "  - " + listed[i].1;
    assert line[0] == ' ' && "---"[0] == '-';
  }

  // ---- Reading one property back ----

  lemma KeyReadBack(key: string, rest: string, other: string, otherRest: string)
    requires PlainKey(key) && PlainKey(other) && key + ":" + rest == other + ":" + otherRest
    ensures key == other && rest == otherRest
  {
    var line := key + ":" + rest;
    assert line[|key|] == ':' && line[|other|] == ':';
    assert forall k :: 0 <= k < |key| ==> line[k] == key[k];
    assert forall k :: 0 <= k < |other| ==> (other + ":" + otherRest)[k] == other[k];
    assert |key| == |other|;
    assert key == line[..|key|] == other;
    assert rest == line[|key| + 1..] == (other + ":" + otherRest)[|other| + 1..] == otherRest;
  }

  /** No two different scalars of two values are spelled alike. */
  ghost predicate TellsApart(style: Style, v: Value, w: Value) {
    forall x, y :: HasScalar(v, x) && HasScalar(w, y) && Spelled(style, x) == Spelled(style, y) ==> x == y
  }

  lemma ListsReadBack(style: Style, key: string, s: seq<Scalar>, t: seq<Scalar>)
    requires Bullets(Listed(style, key, s)) == Bullets(Listed(style, key, t))
    requires TellsApart(style, Many(s), Many(t))
    ensures SameValue(style, key, Many(s), Many(t))
  {
    var a, b := Listed(style, key, s), Listed(style, key, t);
    ListedExactly(style, key, s);
    ListedExactly(style, key, t);
    hide Listed, Spelled;
    forall i | 0 <= i < |a| ensures a[i].1 == b[i].1 {
      assert Bullets(a)[i] == Bullets(b)[i];
      assert a[i].1 == Bullets(a)[i][4..] && b[i].1 == Bullets(b)[i][4..];
    }
    assert |a| == |Bullets(a)| == |Bullets(b)| == |b|;
    if style.setLike(key) {
      ItemsWithin(style, s, t, a, b);
      SwapApart(style, Many(s), Many(t));
      ItemsWithin(style, t, s, b, a);
    } else {
      forall i | 0 <= i < |s| ensures s[i] == t[i] {
        assert s[i] in s && t[i] in t;
        assert a[i] == Pair(style, s[i]) && b[i] == Pair(style, t[i]);
      }
      assert s == t;
    }
  }

  lemma SwapApart(style: Style, v: Value, w: Value)
    requires TellsApart(style, v, w)
    ensures TellsApart(style, w, v)
  {
  }

  lemma ItemsWithin(style: Style, s: seq<Scalar>, t: seq<Scalar>, a: seq<Rendered>, b: seq<Rendered>)
    requires |a| == |b| && forall i :: 0 <= i < |a| ==> a[i].1 == b[i].1
    requires forall y :: y in a <==> y in Pairs(style, s)
    requires forall y :: y in b <==> y in Pairs(style, t)
    requires TellsApart(style, Many(s), Many(t))
    ensures forall x :: x in s ==> x in t
  {
    hide Spelled;
    forall x | x in s ensures x in t {
      var k :| 0 <= k < |s| && s[k] == x;
      assert Pairs(style, s)[k] in a;
      var i :| 0 <= i < |a| && a[i] == Pairs(style, s)[k];
      assert b[i] in b;
      var j :| 0 <= j < |t| && Pairs(style, t)[j] == b[i];
      assert t[j] in t && Spelled(style, x) == Spelled(style, t[j]);
    }
  }

  /** A property that shows is read back from its lines, key and value. */
  lemma EntryReadBack(style: Style, e: Entry, f: Entry)
    requires PlainKey(e.0) && PlainKey(f.0) && TellsApart(style, e.1, f.1)
    requires EntryLines(style, e) == EntryLines(style, f) != []
    ensures e.0 == f.0 && SameValue(style, e.0, e.1, f.1)
  {
    hide Spelled, Listed, SameValue, TellsApart;
    assert EntryLines(style, e)[0] == EntryLines(style, f)[0];
    match (e.1, f.1)
    case (One(x), One(y)) =>
      SpacedOut(e.0, Spelled(style, x));
      SpacedOut(f.0, Spelled(style, y));
      KeyReadBack(e.0, " " + Spelled(style, x), f.0, " " + Spelled(style, y));
      assert Spelled(style, x) == (" " + Spelled(style, x))[1..] == Spelled(style, y);
      ScalarsReadBack(style, e.0, x, y);
    case (Many(s), Many(t)) =>
      assert e.0 + ":" == e.0 + ":" + "" && f.0 + ":" == f.0 + ":" + "";
      KeyReadBack(e.0, "", f.0, "");
      assert Bullets(Listed(style, e.0, s)) == EntryLines(style, e)[1..];
      assert Bullets(Listed(style, f.0, t)) == EntryLines(style, f)[1..];
      ListsReadBack(style, e.0, s, t);
    case (One(x), Many(_)) =>
      SpacedOut(e.0, Spelled(style, x));
      assert f.0 + ":" == f.0 + ":" + "";
      KeyReadBack(e.0, " " + Spelled(style, x), f.0, "");
    case (Many(_), One(y)) =>
      SpacedOut(f.0, Spelled(style, y));
      assert e.0 + ":" == e.0 + ":" + "";
      KeyReadBack(e.0, "", f.0, " " + Spelled(style, y));
  }

  lemma SpacedOut(key: string, text: string)
    ensures key + ": " + text == key + ":" + (" " + text)
  {
  }

  lemma ScalarsReadBack(style: Style, key: string, x: Scalar, y: Scalar)
    requires TellsApart(style, One(x), One(y)) && Spelled(style, x) == Spelled(style, y)
    ensures SameValue(style, key, One(x), One(y))
  {
    hide Spelled;
    assert HasScalar(One(x), x) && HasScalar(One(y), y);
  }

  // ---- Reading all properties back ----

  /** The properties that are written: an empty list is not. */
  function Shown(entries: seq<Entry>): seq<Entry> {
    if entries == [] then []
    else
      var n := |entries| - 1;
      Shown(entries[..n]) + if entries[n].1 == Many([]) then [] else [entries[n]]
  }

  lemma {:induction false} ShownLines(style: Style, entries: seq<Entry>)
    ensures AllLines(style, Shown(entries)) == AllLines(style, entries)
    ensures forall e :: e in Shown(entries) <==> e in entries && e.1 != Many([])
    decreases |entries|
  {
    hide Spelled, Listed;
    if entries != [] {
      var n := |entries| - 1;
      ShownLines(style, entries[..n]);
      assert entries == entries[..n] + [entries[n]];
      var early := Shown(entries[..n]);
      if entries[n].1 != Many([]) {
        assert (early + [entries[n]])[..|early|] == early;
      } else {
        assert early + [] == early;
        assert AllLines(style, entries[..n]) + [] == AllLines(style, entries[..n]);
      }
    }
  }

  lemma {:induction false} AllShape(style: Style, entries: seq<Entry>)
    requires OneLiner(style) && PlainKeys(entries)
    ensures forall i :: 0 <= i < |AllLines(style, entries)| ==>
              OneLine(AllLines(style, entries)[i]) && AllLines(style, entries)[i] != "---"
    decreases |entries|
  {
    hide EntryLines, PlainKey, OneLine, OneLiner;
    if entries != [] {
      var n := |entries| - 1;
      AllShape(style, entries[..n]);
      EntryShape(style, entries[n]);
    }
  }

  predicate AllShow(entries: seq<Entry>) { forall i :: 0 <= i < |entries| ==> entries[i].1 != Many([]) }

  lemma ShowsLines(style: Style, e: Entry)
    requires e.1 != Many([])
    ensures EntryLines(style, e) != []
  {
  }

  /** The last property starts at the last line that is no item, so the last properties' lines are the same. */
  lemma LastBlock(a: seq<string>, x: seq<string>, b: seq<string>, y: seq<string>)
    requires a + x == b + y && x != [] && y != []
    requires IsHeader(x[0]) && forall i :: 1 <= i < |x| ==> IsItem(x[i])
    requires IsHeader(y[0]) && forall i :: 1 <= i < |y| ==> IsItem(y[i])
    ensures a == b && x == y
  {
    var all := a + x;
    assert all[|a|] == x[0] && all[|b|] == y[0];
    assert forall k :: |a| <= k < |all| ==> all[k] == x[k - |a|];
    assert forall k :: |b| <= k < |all| ==> (b + y)[k] == y[k - |b|];
    assert |a| == |b|;
    assert a == all[..|a|] == b;
    assert x == all[|a|..] == (b + y)[|b|..] == y;
  }

  lemma {:induction false} EntriesReadBack(style: Style, s: seq<Entry>, t: seq<Entry>)
    requires OneLiner(style) && PlainKeys(s) && PlainKeys(t) && AllShow(s) && AllShow(t) && Distinguishes(style, s, t)
    requires AllLines(style, s) == AllLines(style, t)
    ensures Alike(s, t, (key, v, w) => SameValue(style, key, v, w))
    decreases |s|
  {
    hide EntryLines, PlainKey, OneLiner, SameValue, Distinguishes, IsHeader, IsItem;
    if s != [] { ShowsLines(style, s[|s| - 1]); }
    if t != [] { ShowsLines(style, t[|t| - 1]); }
    if s != [] && t != [] {
      var m, n := |s| - 1, |t| - 1;
      EntryShape(style, s[m]);
      EntryShape(style, t[n]);
      LastBlock(AllLines(style, s[..m]), EntryLines(style, s[m]), AllLines(style, t[..n]), EntryLines(style, t[n]));
      ApartWithin(style, s, t);
      EntryReadBack(style, s[m], t[n]);
      EntriesReadBack(style, s[..m], t[..n]);
    }
  }

  lemma ApartWithin(style: Style, s: seq<Entry>, t: seq<Entry>)
    requires Distinguishes(style, s, t) && s != [] && t != []
    ensures Distinguishes(style, s[..|s| - 1], t[..|t| - 1])
    ensures TellsApart(style, s[|s| - 1].1, t[|t| - 1].1)
  {
    hide Spelled, HasScalar;
    var m, n := |s| - 1, |t| - 1;
    assert s[m] in s && t[n] in t;
    forall x | Mentions(s[..m], x) ensures Mentions(s, x) {
      var e :| e in s[..m] && HasScalar(e.1, x);
      assert e in s;
    }
    forall y | Mentions(t[..n], y) ensures Mentions(t, y) {
      var e :| e in t[..n] && HasScalar(e.1, y);
      assert e in t;
    }
    forall x | HasScalar(s[m].1, x) ensures Mentions(s, x) {
    }
    forall y | HasScalar(t[n].1, y) ensures Mentions(t, y) {
    }
    hide Mentions;
  }

  // ---- Reading a record back ----

  /** The value a record shows under a key: an empty list is not shown. */
  function ShownAt(entries: seq<Entry>, key: string): Option<Value> {
    if Get(entries, key) == Some(Many([])) then None else Get(entries, key)
  }

  /** The same keys show, with related values under each. */
  ghost predicate SameShown(a: seq<Entry>, b: seq<Entry>, key: string, same: (string, Value, Value) -> bool) {
    match ShownAt(a, key)
    case None => ShownAt(b, key).None?
    case Some(v) => ShownAt(b, key).Some? && same(key, v, ShownAt(b, key).value)
  }

  lemma AlikeAt(a: seq<Entry>, b: seq<Entry>, s: seq<Entry>, t: seq<Entry>, key: string,
                same: (string, Value, Value) -> bool)
    requires UniqueKeys(a) && UniqueKeys(b) && Alike(s, t, same)
    requires forall e :: e in s ==> e in a && e.1 != Many([])
    requires forall e :: e in a && e.0 == key && e.1 != Many([]) ==> e in s
    requires forall e :: e in t ==> e in b && e.1 != Many([])
    requires forall e :: e in b && e.0 == key && e.1 != Many([]) ==> e in t
    ensures SameShown(a, b, key, same)
  {
    GetIn(a, key);
    GetIn(b, key);
    hide Get, UniqueKeys;
    if ShownAt(a, key).Some? {
      var e := (key, ShownAt(a, key).value);
      assert e in a;
      var i :| 0 <= i < |s| && s[i] == e;
      ShownHere(b, t, i);
    }
    if ShownAt(b, key).Some? {
      var e := (key, ShownAt(b, key).value);
      assert e in b;
      var i :| 0 <= i < |t| && t[i] == e;
      ShownHere(a, s, i);
    }
  }

  lemma ShownHere(a: seq<Entry>, s: seq<Entry>, i: nat)
    requires UniqueKeys(a) && i < |s| && forall e :: e in s ==> e in a && e.1 != Many([])
    ensures ShownAt(a, s[i].0) == Some(s[i].1)
  {
    GetIn(a, s[i].0);
    hide Get, UniqueKeys;
    assert s[i] in s;
    var j :| 0 <= j < |a| && a[j] == s[i];
  }

  lemma FencesReadBack(style: Style, s: seq<Entry>, body: string, t: seq<Entry>, other: string)
    requires OneLiner(style) && PlainKeys(s) && PlainKeys(t)
    requires Fenced(AllLines(style, s), body) == Fenced(AllLines(style, t), other)
    ensures AllLines(style, s) == AllLines(style, t) && body == other
  {
    AllShape(style, s);
    AllShape(style, t);
    hide AllLines, Join, PlainKeys, OneLiner, OneLine;
    var a, b := AllLines(style, s), AllLines(style, t);
    Unfenced(Join(a), body);
    Unfenced(Join(b), other);
    LinesReadBack(a, "\n" + body, b, "\n" + other);
    assert body == ("\n" + body)[1..] == ("\n" + other)[1..] == other;
  }

  lemma Unfenced(text: string, body: string)
    ensures ("---\n" + text + ("---\n\n" + body))[4..] == text + ("---\n" + ("\n" + body))
  {
    assert "---\n\n" + body == "---\n" + ("\n" + body);
  }

  /** Texts laid out from two lists of properties are equal only if the lists show the same. */
  lemma ListsShowAlike(style: Style, s: seq<Entry>, body: string, t: seq<Entry>, other: string)
    requires OneLiner(style) && PlainKeys(s) && PlainKeys(t) && Distinguishes(style, s, t)
    requires Fenced(AllLines(style, s), body) == Fenced(AllLines(style, t), other)
    ensures body == other && Alike(Shown(s), Shown(t), (key, v, w) => SameValue(style, key, v, w))
  {
    FencesReadBack(style, s, body, t, other);
    ShownLines(style, s);
    ShownLines(style, t);
    ShownKeeps(style, s, t);
    EntriesReadBack(style, Shown(s), Shown(t));
  }

  lemma ShownKeeps(style: Style, s: seq<Entry>, t: seq<Entry>)
    requires PlainKeys(s) && PlainKeys(t) && Distinguishes(style, s, t)
    ensures PlainKeys(Shown(s)) && PlainKeys(Shown(t)) && AllShow(Shown(s)) && AllShow(Shown(t))
    ensures Distinguishes(style, Shown(s), Shown(t))
  {
    hide *;
    ShownLines(style, s);
    ShownLines(style, t);
    ShownShows(style, s);
    ShownShows(style, t);
    SameKeysPlain(s, Shown(s));
    SameKeysPlain(t, Shown(t));
    SameDistinguished(style, s, t, Shown(s), Shown(t));
  }

  lemma ShownShows(style: Style, entries: seq<Entry>)
    ensures AllShow(Shown(entries))
  {
    ShownLines(style, entries);
    hide Shown;
    var shown := Shown(entries);
    assert forall i :: 0 <= i < |shown| ==> shown[i] in shown;
  }

  /**
   * The canonical form says everything: if two records have equal canonical bytes, their bodies are
   * equal, they show the same properties, and the values differ at most as set-like lists of the same
   * items. The text rules must keep every scalar on one line and tell the two records' scalars apart,
   * and keys must be free of line feeds, colons and leading spaces.
   */
  lemma CanonicalBytesReadBack(style: Style, a: Record, b: Record, key: string)
    requires UniqueKeys(a.entries) && UniqueKeys(b.entries)
    requires OneLiner(style) && PlainKeys(a.entries) && PlainKeys(b.entries)
    requires Distinguishes(style, a.entries, b.entries)
    requires CanonicalText(style, a).Ok? && CanonicalText(style, a) == CanonicalText(style, b)
    ensures a.body == b.body
    ensures SameShown(a.entries, b.entries, key, (k, v, w) => SameValue(style, k, v, w))
  {
    hide CanonicalText, UniqueKeys, PlainKey, SameValue, AllLines, Fenced, InOrder, WritableValue, Distinguishes;
    var s := CanonicalLayout(style, a);
    var t := CanonicalLayout(style, b);
    SameKeysPlain(a.entries, s);
    SameKeysPlain(b.entries, t);
    SameDistinguished(style, a.entries, b.entries, s, t);
    ListsShowAlike(style, s, a.body, t, b.body);
    ShownLines(style, s);
    ShownLines(style, t);
    hide Shown, Alike;
    AlikeAt(a.entries, b.entries, Shown(s), Shown(t), key, (k, v, w) => SameValue(style, k, v, w));
  }

  lemma SameKeysPlain(entries: seq<Entry>, s: seq<Entry>)
    requires PlainKeys(entries) && forall e :: e in s ==> e in entries
    ensures PlainKeys(s)
  {
    hide PlainKey;
    forall i | 0 <= i < |s| ensures PlainKey(s[i].0) { assert s[i] in entries; }
  }

  lemma SameDistinguished(style: Style, a: seq<Entry>, b: seq<Entry>, s: seq<Entry>, t: seq<Entry>)
    requires Distinguishes(style, a, b) && (forall e :: e in s ==> e in a) && (forall e :: e in t ==> e in b)
    ensures Distinguishes(style, s, t)
  {
    hide Spelled, HasScalar;
  }

  // ---- Reading a record's meaning back ----

  /** In UTC, no two different scalars of two records are spelled alike. */
  ghost predicate DistinguishesInUtc(style: Style, a: seq<Entry>, b: seq<Entry>) {
    forall x, y, x', y' ::
      Mentions(a, x) && Mentions(b, y) && InUtc(x, x') && InUtc(y, y') && Spelled(style, x') == Spelled(style, y') ==>
        x' == y'
  }

  predicate ValidTimes(entries: seq<Entry>) {
    forall i :: 0 <= i < |entries| ==>
      match entries[i].1
      case One(x) => x.DatetimeScalar? ==> Valid(x.datetime)
      case Many(items) => forall k :: 0 <= k < |items| && items[k].DatetimeScalar? ==> Valid(items[k].datetime)
  }

  lemma UtcMeans(x: Scalar, x': Scalar, y: Scalar)
    requires InUtc(x, x') && InUtc(y, x')
    requires (x.DatetimeScalar? ==> Valid(x.datetime)) && (y.DatetimeScalar? ==> Valid(y.datetime))
    ensures SameMeaning(x, y)
  {
    if x.DatetimeScalar? && y.DatetimeScalar? { UtcIsCanonical(x.datetime, y.datetime); }
    hide ToUtc, SameInstant, Valid;
  }

  /** Values that are alike in UTC mean the same. */
  lemma ValuesMean(style: Style, key: string, e: Entry, e': Entry, f: Entry, f': Entry)
    requires ValueInUtc(e.1, e'.1) && ValueInUtc(f.1, f'.1) && SameValue(style, key, e'.1, f'.1)
    requires ValidTimes([e]) && ValidTimes([f])
    ensures SameSemantics(style, key, e.1, f.1)
  {
    assert [e][0] == e && [f][0] == f;
    hide InUtc, SameMeaning, Valid;
    match (e.1, f.1)
    case (One(x), One(y)) => UtcMeans(x, e'.1.scalar, y);
    case (Many(s), Many(t)) =>
      var s', t' := e'.1.items, f'.1.items;
      if style.setLike(key) {
        assert forall z :: z in s' ==> z in t';
        assert forall z :: z in t' ==> z in s';
        UtcWithin(s, s', t, t');
        UtcWithin(t, t', s, s');
      } else {
        forall i | 0 <= i < |s| ensures SameMeaning(s[i], t[i]) { UtcMeans(s[i], s'[i], t[i]); }
      }
    case _ =>
  }

  predicate ValidItems(items: seq<Scalar>) {
    forall k :: 0 <= k < |items| && items[k].DatetimeScalar? ==> Valid(items[k].datetime)
  }

  lemma UtcWithin(s: seq<Scalar>, s': seq<Scalar>, t: seq<Scalar>, t': seq<Scalar>)
    requires |s| == |s'| && |t| == |t'| && ValidItems(s) && ValidItems(t)
    requires forall i :: 0 <= i < |s| ==> InUtc(s[i], s'[i])
    requires forall i :: 0 <= i < |t| ==> InUtc(t[i], t'[i])
    requires forall z :: z in s' ==> z in t'
    ensures MeansWithin(s, t)
  {
    hide InUtc, SameMeaning, Valid;
    forall i | 0 <= i < |s| ensures MeansOneOf(s[i], t) {
      assert s'[i] in t';
      var j :| 0 <= j < |t'| && t'[j] == s'[i];
      UtcMeans(s[i], s'[i], t[j]);
    }
  }

  lemma {:induction false} ShownInUtc(entries: seq<Entry>, utc: seq<Entry>)
    requires EntriesInUtc(entries, utc)
    ensures EntriesInUtc(Shown(entries), Shown(utc))
    decreases |entries|
  {
    hide InUtc;
    if entries != [] {
      var n := |entries| - 1;
      ShownInUtc(entries[..n], utc[..n]);
      assert entries[n].1 == Many([]) <==> utc[n].1 == Many([]) by {
        if entries[n].1.Many? && utc[n].1.items == [] { assert entries[n].1.items == []; }
      }
    }
  }

  lemma UtcDistinguished(style: Style, a: seq<Entry>, b: seq<Entry>, s: seq<Entry>, s': seq<Entry>, t: seq<Entry>,
                         t': seq<Entry>)
    requires DistinguishesInUtc(style, a, b) && EntriesInUtc(s, s') && EntriesInUtc(t, t')
    requires (forall e :: e in s ==> e in a) && (forall e :: e in t ==> e in b)
    ensures Distinguishes(style, s', t')
  {
    hide InUtc, Spelled, Mentions;
    forall x', y' | Mentions(s', x') && Mentions(t', y') && Spelled(style, x') == Spelled(style, y') ensures x' == y' {
      var x := UtcMentioned(a, s, s', x');
      var y := UtcMentioned(b, t, t', y');
    }
  }

  lemma UtcMentioned(a: seq<Entry>, s: seq<Entry>, s': seq<Entry>, x': Scalar) returns (x: Scalar)
    requires EntriesInUtc(s, s') && Mentions(s', x') && forall e :: e in s ==> e in a
    ensures Mentions(a, x) && InUtc(x, x')
  {
    hide InUtc;
    var e' :| e' in s' && HasScalar(e'.1, x');
    var i :| 0 <= i < |s'| && s'[i] == e';
    assert s[i] in s;
    match s[i].1
    case One(y) => x := y;
    case Many(items) =>
      var k :| 0 <= k < |e'.1.items| && e'.1.items[k] == x';
      x := items[k];
  }

  lemma MeaningsAlike(style: Style, s: seq<Entry>, s': seq<Entry>, t: seq<Entry>, t': seq<Entry>)
    requires EntriesInUtc(s, s') && EntriesInUtc(t, t') && ValidTimes(s) && ValidTimes(t)
    requires Alike(s', t', (key, v, w) => SameValue(style, key, v, w))
    ensures Alike(s, t, (key, v, w) => SameSemantics(style, key, v, w))
  {
    hide ValueInUtc, SameValue, SameSemantics, Valid;
    forall i | 0 <= i < |s| ensures s[i].0 == t[i].0 && SameSemantics(style, s[i].0, s[i].1, t[i].1) {
      assert ValidTimes([s[i]]) && ValidTimes([t[i]]);
      ValuesMean(style, s[i].0, s[i], s'[i], t[i], t'[i]);
    }
  }

  lemma WithinValid(entries: seq<Entry>, s: seq<Entry>)
    requires ValidTimes(entries) && forall e :: e in s ==> e in entries
    ensures ValidTimes(s)
  {
    hide Valid;
    forall i | 0 <= i < |s| ensures ValidTimes([s[i]]) {
      assert s[i] in entries;
      var j :| 0 <= j < |entries| && entries[j] == s[i];
    }
    assert forall i :: 0 <= i < |s| ==> [s[i]][0] == s[i];
  }

  lemma UtcKeysPlain(s: seq<Entry>, s': seq<Entry>)
    requires EntriesInUtc(s, s') && PlainKeys(s)
    ensures PlainKeys(s')
  {
    hide PlainKey, ValueInUtc;
  }

  /**
   * The semantic form says the record's whole meaning: if two records have equal semantic bytes, their
   * bodies are equal, and under every key that is not bookkeeping they show values that mean the same.
   */
  lemma SemanticBytesReadBack(style: Style, a: Record, b: Record, key: string)
    requires UniqueKeys(a.entries) && UniqueKeys(b.entries) && ValidTimes(a.entries) && ValidTimes(b.entries)
    requires OneLiner(style) && PlainKeys(a.entries) && PlainKeys(b.entries)
    requires DistinguishesInUtc(style, a.entries, b.entries)
    requires SemanticText(style, a).Ok? && SemanticText(style, a) == SemanticText(style, b) && !Bookkeeping(key)
    ensures a.body == b.body
    ensures SameShown(a.entries, b.entries, key, (k, v, w) => SameSemantics(style, k, v, w))
  {
    hide SemanticText, UniqueKeys, PlainKey, SameValue, SameSemantics, AllLines, Fenced, WritableValue, ValueHasUtc;
    hide ValueInUtc, DistinguishesInUtc, Bookkeeping, AscendingKeys, ValidTimes;
    var s, s' := SemanticLayout(style, a);
    var t, t' := SemanticLayout(style, b);
    SameKeysPlain(a.entries, s);
    SameKeysPlain(b.entries, t);
    UtcKeysPlain(s, s');
    UtcKeysPlain(t, t');
    UtcDistinguished(style, a.entries, b.entries, s, s', t, t');
    ListsShowAlike(style, s', a.body, t', b.body);
    ShownInUtc(s, s');
    ShownInUtc(t, t');
    ShownLines(style, s);
    ShownLines(style, t);
    WithinValid(a.entries, Shown(s));
    WithinValid(b.entries, Shown(t));
    hide Shown, Alike, EntriesInUtc;
    MeaningsAlike(style, Shown(s), Shown(s'), Shown(t), Shown(t'));
    AlikeAt(a.entries, b.entries, Shown(s), Shown(t), key, (k, v, w) => SameSemantics(style, k, v, w));
  }
}
