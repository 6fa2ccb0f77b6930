/** Sorting and deduplication: together they list a set in the one strictly ascending order. */
module Sorting {

  ghost predicate StrictTotal<T(!new)>(lt: (T, T) -> bool) {
    && (forall x :: !lt(x, x))
    && (forall x, y :: lt(x, y) || x == y || lt(y, x))
    && (forall x, y, z :: lt(x, y) && lt(y, z) ==> lt(x, z))
  }

  ghost predicate StrictlyAscending<T(!new)>(s: seq<T>, lt: (T, T) -> bool) {
    forall i, j :: 0 <= i < j < |s| ==> lt(s[i], s[j])
  }

  ghost predicate Ascending<T(!new)>(s: seq<T>, lt: (T, T) -> bool) {
    forall i, j :: 0 <= i < j < |s| ==> lt(s[i], s[j]) || s[i] == s[j]
  }

  function Insert<T>(x: T, s: seq<T>, lt: (T, T) -> bool): seq<T> {
    if s == [] then [x]
    else if lt(s[0], x) then [s[0]] + Insert(x, s[1..], lt)
    else [x] + s
  }

  function Sort<T>(s: seq<T>, lt: (T, T) -> bool): seq<T> {
    if s == [] then [] else Insert(s[0], Sort(s[1..], lt), lt)
  }

  function Dedup<T(==)>(s: seq<T>): seq<T> {
    if |s| <= 1 then s
    else if s[0] == s[1] then Dedup(s[1..])
    else [s[0]] + Dedup(s[1..])
  }

  lemma {:induction false} InsertSorts<T(!new)>(x: T, s: seq<T>, lt: (T, T) -> bool)
    requires StrictTotal(lt) && Ascending(s, lt)
    ensures Ascending(Insert(x, s, lt), lt) && |Insert(x, s, lt)| == |s| + 1
    ensures forall y :: y in Insert(x, s, lt) <==> y == x || y in s
  {
    if s != [] && lt(s[0], x) {
      InsertSorts(x, s[1..], lt);
      var t := Insert(x, s[1..], lt);
      assert s == [s[0]] + s[1..];
      forall j | 0 <= j < |t| ensures lt(s[0], t[j]) || s[0] == t[j] {
        assert t[j] in t;
      }
    }
  }

  lemma {:induction false} SortSorts<T(!new)>(s: seq<T>, lt: (T, T) -> bool)
    requires StrictTotal(lt)
    ensures Ascending(Sort(s, lt), lt) && |Sort(s, lt)| == |s|
    ensures forall y :: y in Sort(s, lt) <==> y in s
  {
    if s != [] {
      SortSorts(s[1..], lt);
      InsertSorts(s[0], Sort(s[1..], lt), lt);
      assert s == [s[0]] + s[1..];
    }
  }

  lemma {:induction false} DedupStrict<T(!new)>(s: seq<T>, lt: (T, T) -> bool)
    requires StrictTotal(lt) && Ascending(s, lt)
    ensures StrictlyAscending(Dedup(s), lt)
    ensures forall y :: y in Dedup(s) <==> y in s
    ensures s != [] ==> Dedup(s) != [] && Dedup(s)[0] == s[0]
  {
    if |s| > 1 {
      DedupStrict(s[1..], lt);
      assert s == [s[0]] + s[1..];
      if s[0] != s[1] {
        var t := Dedup(s[1..]);
        forall j | 0 <= j < |t| ensures lt(s[0], t[j]) {
          assert lt(s[0], s[1]) && t[0] == s[1];
          if j > 0 { assert lt(t[0], t[j]); }
        }
      }
    }
  }

  lemma FirstElementsAgree<T(!new)>(s: seq<T>, t: seq<T>, lt: (T, T) -> bool)
    requires StrictTotal(lt) && StrictlyAscending(s, lt) && StrictlyAscending(t, lt)
    requires s != [] && t != [] && s[0] in t && t[0] in s
    ensures s[0] == t[0]
  {
    var i :| 0 <= i < |t| && t[i] == s[0];
    var j :| 0 <= j < |s| && s[j] == t[0];
  }

  /** Two strictly ascending listings of the same elements are the same sequence. */
  lemma {:induction false} AscendingUnique<T(!new)>(s: seq<T>, t: seq<T>, lt: (T, T) -> bool)
    requires StrictTotal(lt) && StrictlyAscending(s, lt) && StrictlyAscending(t, lt)
    requires forall y :: y in s <==> y in t
    ensures s == t
    decreases |s|
  {
    assert t == [] || t[0] in t;
    if s != [] {
      assert s[0] in s;
      assert t != [] && t[0] in t;
      assert s[0] == t[0] by { FirstElementsAgree(s, t, lt); }
      assert s == [s[0]] + s[1..] && t == [t[0]] + t[1..];
      forall y ensures y in s[1..] <==> y in t[1..] {
        if y in s[1..] {
          var i :| 0 <= i < |s[1..]| && s[1..][i] == y;
          assert y != s[0] && y in t;
        }
        if y in t[1..] {
          var i :| 0 <= i < |t[1..]| && t[1..][i] == y;
          assert y != t[0] && y in s;
        }
      }
      AscendingUnique(s[1..], t[1..], lt);
    }
  }

  /** Sorting then deduplicating forgets order and repetition, and nothing else. */
  lemma SortDedupDependsOnSet<T(!new)>(s: seq<T>, t: seq<T>, lt: (T, T) -> bool)
    requires StrictTotal(lt) && forall y :: y in s <==> y in t
    ensures Dedup(Sort(s, lt)) == Dedup(Sort(t, lt))
  {
    SortSorts(s, lt);
    SortSorts(t, lt);
    DedupStrict(Sort(s, lt), lt);
    DedupStrict(Sort(t, lt), lt);
    AscendingUnique(Dedup(Sort(s, lt)), Dedup(Sort(t, lt)), lt);
  }

  /** Sorting already distinct elements lands on their one strictly ascending listing. */
  lemma SortOfDistinct<T(!new)>(s: seq<T>, t: seq<T>, lt: (T, T) -> bool)
    requires StrictTotal(lt) && StrictlyAscending(t, lt) && forall y :: y in s <==> y in t
    ensures Dedup(Sort(s, lt)) == t
  {
    SortSorts(s, lt);
    DedupStrict(Sort(s, lt), lt);
    AscendingUnique(Dedup(Sort(s, lt)), t, lt);
  }
}
