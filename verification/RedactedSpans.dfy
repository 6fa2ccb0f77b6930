/** What each redaction pass removes from a text, told character by character. */
module RedactedSpans {
  import opened Wrappers
  import opened Redact

  // ---- Characters ----

  /** A letter, a digit or an underscore. */
  predicate IsWord(c: char) {
    ('a' <= c <= 'z') || ('A' <= c <= 'Z') || ('0' <= c <= '9') || c == '_'
  }

  /** The character itself, or the capital of a small letter. */
  predicate Matches(c: char, d: char) { c == d || ('a' <= d <= 'z' && c as int + 32 == d as int) }

  /** The word stands here, in small or capital letters. */
  predicate Spells(text: string, at: nat, word: string) {
    at + |word| <= |text| && forall k :: 0 <= k < |word| ==> Matches(text[at + k], word[k])
  }

  predicate NoCapitals(word: string) { forall k :: 0 <= k < |word| ==> !('A' <= word[k] <= 'Z') }

  lemma LoweredChar(c: char, d: char)
    ensures !('A' <= d <= 'Z') ==> (LowerChar(c) == d <==> Matches(c, d))
    ensures IsWordChar(LowerChar(c)) <==> IsWord(c)
    ensures !('a' <= d <= 'z') && !('A' <= d <= 'Z') ==> (LowerChar(c) == d <==> c == d)
  {
  }

  lemma SpellsExactly(text: string, at: nat, word: string)
    requires NoCapitals(word)
    ensures OccursAt(Lower(text), word, at) <==> Spells(text, at, word)
  {
    OccursPointwise(Lower(text), word, at);
    hide OccursAt, LowerChar, Matches;
    if at + |word| <= |text| {
      forall k | 0 <= k < |word| ensures Lower(text)[at + k] == word[k] <==> Matches(text[at + k], word[k]) {
        LoweredChar(text[at + k], word[k]);
      }
    }
  }

  // ---- Key-value pairs ----

  /** The name runs on over word characters and hyphens. */
  predicate NameRuns(text: string, from: nat, end: nat) {
    from <= end <= |text| && forall k :: from <= k < end ==> IsWord(text[k]) || text[k] == '-'
  }

  /** Right after the name: at most one quote, spaces, and then `:` or `=`. */
  predicate Separated(text: string, name: nat, separator: nat) {
    && name <= separator < |text|
    && (text[separator] == ':' || text[separator] == '=')
    && (name < separator ==> text[name] == '"' || text[name] == '\'' || text[name] == ' ')
    && forall k :: name < k < separator ==> text[k] == ' '
  }

  predicate EndsBare(c: char) { c == ',' || c == ';' || c == '\n' || c == '"' || c == '&' }

  /** After spaces: a bare value up to the first terminator, or what stands between quotes. */
  predicate Valued(text: string, separator: nat, from: nat, to: nat) {
    && separator < from < to <= |text|
    && if text[from - 1] == '"' && from - 1 > separator then
         && (forall k :: separator < k < from - 1 ==> text[k] == ' ')
         && (forall k :: from <= k < to ==> text[k] != '"')
         && (to < |text| ==> text[to] == '"')
       else
         && (forall k :: separator < k < from ==> text[k] == ' ')
         && text[from] != ' '
         && (forall k :: from <= k < to ==> !EndsBare(text[k]))
         && (to < |text| ==> EndsBare(text[to]))
  }

  /** A sensitive word starts a name here, and the value of that name is between the two positions. */
  predicate ValueOfKey(text: string, key: nat, word: string, name: nat, separator: nat, from: nat, to: nat) {
    && Spells(text, key, word) && (key > 0 ==> !IsWord(text[key - 1]))
    && NameRuns(text, key + |word|, name) && Separated(text, name, separator) && Valued(text, separator, from, to)
  }

  predicate Sensitive(word: string) {
    exists i :: 0 <= i < |SENSITIVE_KEY_FRAGMENTS| && SENSITIVE_KEY_FRAGMENTS[i] == word
  }

  ghost predicate SensitiveValue(text: string, key: nat, from: nat, to: nat) {
    exists word, name: nat, separator: nat ::
      Sensitive(word) && ValueOfKey(text, key, word, name, separator, from, to)
  }

  /** Lowering a text changes its letters only. */
  lemma LoweredText(text: string)
    ensures var lowered := Lower(text);
            |lowered| == |text|
            && forall k :: 0 <= k < |text| ==>
                 (IsWordChar(lowered[k]) <==> IsWord(text[k]))
                 && (lowered[k] == '-' <==> text[k] == '-') && (lowered[k] == ' ' <==> text[k] == ' ')
                 && (lowered[k] == ':' <==> text[k] == ':') && (lowered[k] == '=' <==> text[k] == '=')
                 && (lowered[k] == '"' <==> text[k] == '"') && (lowered[k] == '\'' <==> text[k] == '\'')
                 && (EndsBareValue(lowered[k]) <==> EndsBare(text[k]))
  {
  }

  lemma StopsAt(text: string, from: nat, at: nat, test: char -> bool)
    requires from <= at <= |text|
    requires forall k :: from <= k < at ==> !test(text[k])
    requires at < |text| ==> test(text[at])
    ensures SkipTo(text, from, test) == at
  {
  }

  lemma SeparatorExactly(text: string, from: nat, separator: nat)
    requires from <= |text|
    ensures SeparatorAfter(Lower(text), from) == Some(separator)
            <==> exists name: nat :: NameRuns(text, from, name) && Separated(text, name, separator)
  {
    var lowered := Lower(text);
    LoweredText(text);
    hide Lower, IsWordChar, IsWord, SkipTo;
    var name := SkipTo(lowered, from, EndsKeyName);
    if SeparatorAfter(lowered, from) == Some(separator) {
      assert NameRuns(text, from, name) && Separated(text, name, separator);
    }
    if end: nat :| NameRuns(text, from, end) && Separated(text, end, separator) {
      NameEnds(text, lowered, from, end, separator);
    }
  }

  lemma NameEnds(text: string, lowered: string, from: nat, name: nat, separator: nat)
    requires lowered == Lower(text) && from <= |text|
    requires NameRuns(text, from, name) && Separated(text, name, separator)
    ensures SeparatorAfter(lowered, from) == Some(separator)
  {
    LoweredText(text);
    assert !IsWord(text[name]) && text[name] != '-';
    hide Lower, IsWordChar, IsWord, SkipTo;
    StopsAt(lowered, from, name, EndsKeyName);
    var quoted := lowered[name] == '"' || lowered[name] == '\'';
    StopsAt(lowered, if quoted then name + 1 else name, separator, NotSpace);
  }

  lemma ValueExactly(text: string, separator: nat, from: nat, to: nat)
    requires separator < |text|
    ensures ValueAfter(Lower(text), separator) == Some((from, to)) <==> Valued(text, separator, from, to)
  {
    var lowered := Lower(text);
    LoweredText(text);
    hide Lower, IsWordChar, IsWord, SkipTo, EndsBareValue, EndsBare;
    var start := SkipTo(lowered, separator + 1, NotSpace);
    if Valued(text, separator, from, to) {
      var quoted := text[from - 1] == '"' && from - 1 > separator;
      BareStart(text, from, to);
      StopsAt(lowered, separator + 1, if quoted then from - 1 else from, NotSpace);
      StopsAt(lowered, from, to, if quoted then IsQuote else EndsBareValue);
    }
  }

  lemma BareStart(text: string, from: nat, to: nat)
    requires from < to <= |text|
    ensures !EndsBare(text[from]) ==> text[from] != '"'
  {
  }

  lemma FragmentIsName(i: nat)
    requires i < |SENSITIVE_KEY_FRAGMENTS|
    ensures var word := SENSITIVE_KEY_FRAGMENTS[i];
            word != [] && forall k :: 0 <= k < |word| ==> 'a' <= word[k] <= 'z' || word[k] == '_'
  {
  }

  lemma {:induction false} FirstFragmentFound(lowered: string, at: nat, fragments: seq<string>)
    requires at <= |lowered|
    ensures match FirstFragment(lowered, at, fragments)
            case None => forall i :: 0 <= i < |fragments| ==> !OccursAt(lowered, fragments[i], at)
            case Some(fragment) =>
              exists i :: 0 <= i < |fragments| && fragments[i] == fragment && OccursAt(lowered, fragment, at)
  {
    hide OccursAt;
    if fragments != [] && !OccursAt(lowered, fragments[0], at) {
      var rest := fragments[1..];
      FirstFragmentFound(lowered, at, rest);
      assert forall i :: 1 <= i < |fragments| ==> fragments[i] == rest[i - 1];
      var found := FirstFragment(lowered, at, rest);
      if found.Some? {
        var i :| 0 <= i < |rest| && rest[i] == found.value;
        assert fragments[i + 1] == found.value;
      }
    }
  }

  /** A name that begins with a word of name characters runs on from the word's end. */
  lemma WordInName(text: string, key: nat, word: string)
    requires Spells(text, key, word) && forall k :: 0 <= k < |word| ==> 'a' <= word[k] <= 'z' || word[k] == '_'
    ensures NameRuns(text, key, key + |word|)
  {
    forall k | key <= k < key + |word| ensures IsWord(text[k]) { assert Matches(text[k], word[k - key]); }
  }

  /** All sensitive words that start a name here give it the same end, so they lead to the same separator. */
  lemma SameName(text: string, key: nat, word: string, other: string, name: nat, separator: nat)
    requires Spells(text, key, word) && forall k :: 0 <= k < |word| ==> 'a' <= word[k] <= 'z' || word[k] == '_'
    requires Spells(text, key, other) && forall k :: 0 <= k < |other| ==> 'a' <= other[k] <= 'z' || other[k] == '_'
    requires NameRuns(text, key + |word|, name) && Separated(text, name, separator)
    ensures NameRuns(text, key + |other|, name)
  {
    WordInName(text, key, word);
    WordInName(text, key, other);
    assert !IsWord(text[name]) && text[name] != '-';
    hide IsWord;
  }

  /** The first listed word that stands here, if any does. */
  function WordHere(text: string, key: nat): Option<string>
    requires key <= |text|
  {
    FirstFragment(Lower(text), key, SENSITIVE_KEY_FRAGMENTS)
  }

  lemma WordHereExactly(text: string, key: nat)
    requires key <= |text|
    ensures match WordHere(text, key)
            case None => forall word :: Sensitive(word) ==> !Spells(text, key, word)
            case Some(word) => Sensitive(word) && Spells(text, key, word)
  {
    var fragments := SENSITIVE_KEY_FRAGMENTS;
    FirstFragmentFound(Lower(text), key, fragments);
    forall i | 0 <= i < |fragments|
      ensures OccursAt(Lower(text), fragments[i], key) <==> Spells(text, key, fragments[i])
    {
      FragmentIsName(i);
      SpellsExactly(text, key, fragments[i]);
    }
    hide Lower, OccursAt, Spells, FirstFragment;
  }

  lemma SensitiveIsName(word: string)
    requires Sensitive(word)
    ensures forall k :: 0 <= k < |word| ==> 'a' <= word[k] <= 'z' || word[k] == '_'
  {
    var i :| 0 <= i < |SENSITIVE_KEY_FRAGMENTS| && SENSITIVE_KEY_FRAGMENTS[i] == word;
    FragmentIsName(i);
  }

  lemma KeyValueByWord(text: string, key: nat)
    requires key < |text|
    ensures KeyValueAt(Lower(text), key)
         == if key > 0 && IsWordChar(Lower(text)[key - 1]) then None
            else match WordHere(text, key) case None => None case Some(word) => ValueSpan(Lower(text), key + |word|)
  {
    hide Lower, FirstFragment, ValueSpan;
  }

  /** The pass finds a value behind a key exactly when one stands there, and finds just that value. */
  lemma KeyValueExactly(text: string, key: nat, from: nat, to: nat)
    requires key < |text|
    ensures KeyValueAt(Lower(text), key) == Some((from, to)) <==> SensitiveValue(text, key, from, to)
  {
    hide *;
    if KeyValueAt(Lower(text), key) == Some((from, to)) { KeyValueFound(text, key, from, to); }
    if SensitiveValue(text, key, from, to) { SensitiveFound(text, key, from, to); }
  }

  lemma NoWordBefore(text: string, key: nat)
    requires 0 < key <= |text|
    ensures IsWordChar(Lower(text)[key - 1]) <==> IsWord(text[key - 1])
  {
    LoweredChar(text[key - 1], 'A');
    hide IsWord, IsWordChar, LowerChar;
  }

  lemma KeyValueFound(text: string, key: nat, from: nat, to: nat)
    requires key < |text| && KeyValueAt(Lower(text), key) == Some((from, to))
    ensures SensitiveValue(text, key, from, to)
  {
    hide *;
    KeyValueByWord(text, key);
    WordHereExactly(text, key);
    if key > 0 { NoWordBefore(text, key); }
    var word := WordHere(text, key).value;
    KeyValueShown(text, key, word, from, to);
  }

  lemma SensitiveFound(text: string, key: nat, from: nat, to: nat)
    requires key < |text| && SensitiveValue(text, key, from, to)
    ensures KeyValueAt(Lower(text), key) == Some((from, to))
  {
    var word, name: nat, separator: nat :|
      Sensitive(word) && ValueOfKey(text, key, word, name, separator, from, to);
    hide SensitiveValue, Sensitive, NameRuns, Separated, Valued, Spells, IsWord;
    FoundBehind(text, key, word, name, separator, from, to);
  }

  lemma FoundBehind(text: string, key: nat, word: string, name: nat, separator: nat, from: nat, to: nat)
    requires key < |text| && Sensitive(word) && Spells(text, key, word) && (key > 0 ==> !IsWord(text[key - 1]))
    requires NameRuns(text, key + |word|, name) && Separated(text, name, separator) && Valued(text, separator, from, to)
    ensures KeyValueAt(Lower(text), key) == Some((from, to))
  {
    hide *;
    KeyValueByWord(text, key);
    WordHereExactly(text, key);
    if key > 0 { NoWordBefore(text, key); }
    var first := WordHere(text, key).value;
    SensitiveIsName(word);
    SensitiveIsName(first);
    SameName(text, key, word, first, name, separator);
    SpanShown(text, key + |first|, name, separator, from, to);
  }

  lemma SpanShown(text: string, after: nat, name: nat, separator: nat, from: nat, to: nat)
    requires NameRuns(text, after, name) && Separated(text, name, separator) && Valued(text, separator, from, to)
    ensures after <= |text| && ValueSpan(Lower(text), after) == Some((from, to))
  {
    SeparatorExactly(text, after, separator);
    ValueExactly(text, separator, from, to);
    hide Lower, SeparatorAfter, ValueAfter, Valued;
  }

  lemma KeyValueShown(text: string, key: nat, word: string, from: nat, to: nat)
    requires key < |text| && Sensitive(word) && Spells(text, key, word) && (key > 0 ==> !IsWord(text[key - 1]))
    requires ValueSpan(Lower(text), key + |word|) == Some((from, to))
    ensures SensitiveValue(text, key, from, to)
  {
    var after := key + |word|;
    var separator := SeparatorAfter(Lower(text), after).value;
    SeparatorExactly(text, after, separator);
    ValueExactly(text, separator, from, to);
    hide Lower, SeparatorAfter, ValueAfter, NameRuns, Separated, Valued, Spells, IsWord, Sensitive;
    var name: nat :| NameRuns(text, after, name) && Separated(text, name, separator);
    assert ValueOfKey(text, key, word, name, separator, from, to);
  }

  ghost predicate HasValue(text: string, key: nat) {
    exists from: nat, to: nat :: SensitiveValue(text, key, from, to)
  }

  /** No sensitive key between two positions has a value. */
  ghost predicate NoKeyValue(text: string, at: nat, end: nat) {
    forall key :: at <= key < end ==> !HasValue(text, key)
  }

  /** The value is that of the first sensitive key from a position on that has one. */
  ghost predicate FirstValue(text: string, at: nat, from: nat, to: nat) {
    exists key: nat :: at <= key < |text| && SensitiveValue(text, key, from, to) && NoKeyValue(text, at, key)
  }

  /**
   * From a position of a text on: every removed span is the value of the first sensitive key that
   * has one, and behind the last removed span no sensitive key has a value.
   */
  ghost predicate EveryKeyMasked(text: string, at: nat, r: Redaction)
    decreases r
  {
    match r
    case Whole(_) => NoKeyValue(text, at, |text|)
    case Masked(kept, removed, rest) =>
      var from, to := at + |kept|, at + |kept| + |removed|;
      FirstValue(text, at, from, to) && EveryKeyMasked(text, to, rest)
  }

  lemma HasValueExactly(text: string, key: nat)
    requires key < |text|
    ensures HasValue(text, key) <==> KeyValueAt(Lower(text), key).Some?
  {
    hide KeyValueAt, Lower, SensitiveValue;
    var found := KeyValueAt(Lower(text), key);
    if found.Some? { KeyValueExactly(text, key, found.value.0, found.value.1); }
    if from: nat, to: nat :| SensitiveValue(text, key, from, to) { KeyValueExactly(text, key, from, to); }
  }

  lemma NoKeyValueExactly(text: string, at: nat, end: nat)
    requires end <= |text| == |Lower(text)|
    requires forall k :: at <= k < end ==> KeyValueAt(Lower(text), k).None?
    ensures NoKeyValue(text, at, end)
  {
    hide KeyValueAt, Lower, HasValue;
    forall k | at <= k < end ensures !HasValue(text, k) { HasValueExactly(text, k); }
  }

  /** What the pass over key-value pairs removes is every sensitive value of its input, and nothing else. */
  lemma KeyValuesMasked(text: string)
    ensures var r := KeyValueSpans(text, 0); Source(r) == text && EveryKeyMasked(text, 0, r)
  {
    KeyValueSource(text, 0);
    assert text[0..] == text;
    KeyValuesRemoved(text, 0);
    RemovedIsMasked(text, 0, KeyValueSpans(text, 0));
  }

  lemma {:induction false} RemovedIsMasked(text: string, at: nat, r: Redaction)
    requires EveryKeyRemoved(Lower(text), at, r)
    ensures EveryKeyMasked(text, at, r)
    decreases r
  {
    LoweredLength(text);
    hide KeyValueAt, Lower, FirstValue, NoKeyValue;
    match r
    case Whole(_) => NoKeyValueExactly(text, at, |text|);
    case Masked(kept, removed, rest) =>
      FirstRemoved(text, at, at + |kept|, at + |kept| + |removed|);
      RemovedIsMasked(text, at + |kept| + |removed|, rest);
  }

  lemma FirstRemoved(text: string, at: nat, from: nat, to: nat)
    requires |Lower(text)| == |text|
    requires exists key :: at <= key < |text| && KeyValueAt(Lower(text), key) == Some((from, to))
                           && forall k :: at <= k < key ==> KeyValueAt(Lower(text), k).None?
    ensures FirstValue(text, at, from, to)
  {
    hide KeyValueAt, Lower, SensitiveValue, NoKeyValue;
    var key :| at <= key < |text| && KeyValueAt(Lower(text), key) == Some((from, to))
               && forall k :: at <= k < key ==> KeyValueAt(Lower(text), k).None?;
    KeyValueExactly(text, key, from, to);
    NoKeyValueExactly(text, at, key);
  }

  lemma LoweredLength(text: string)
    ensures |Lower(text)| == |text|
  {
  }

  // ---- Parameters ----

  /** The parameter's name starts at a word boundary, after `?` or `&` where that is required, and `=` follows it. */
  predicate Names(text: string, name: string, at: nat, queryOnly: bool) {
    && Spells(text, at, name) && at + |name| < |text| && text[at + |name|] == '='
    && (at > 0 ==> !IsWord(text[at - 1]))
    && (queryOnly ==> at > 0 && (text[at - 1] == '?' || text[at - 1] == '&'))
  }

  predicate EndsValue(c: char) { c == '&' || c == ';' || c == ' ' || c == '"' || c == '\'' }

  /**
   * Kept text names the parameter only where a removed value follows its `=`, the value runs to the
   * first terminator, and after the last one the parameter is not named again.
   */
  ghost predicate EveryParameterMasked(r: Redaction, name: string, queryOnly: bool) {
    match r
    case Whole(text) => forall k: nat :: !Names(text, name, k, queryOnly)
    case Masked(kept, removed, rest) =>
      && |name| < |kept| && Names(kept, name, |kept| - |name| - 1, queryOnly)
      && (forall k: nat :: k < |kept| - |name| - 1 ==> !Names(kept, name, k, queryOnly))
      && (forall i :: 0 <= i < |removed| ==> !EndsValue(removed[i]))
      && (Source(rest) != [] ==> EndsValue(Source(rest)[0]))
      && EveryParameterMasked(rest, name, queryOnly)
  }

  lemma NamesExactly(text: string, name: string, at: nat, queryOnly: bool)
    requires NoCapitals(name)
    ensures NamesParameter(Lower(text), name + "=", at, queryOnly) <==> Names(text, name, at, queryOnly)
  {
    var lowered, needle := Lower(text), name + "=";
    SpellsExactly(text, at, name);
    OccursPointwise(lowered, name, at);
    OccursPointwise(lowered, needle, at);
    assert forall k :: 0 <= k < |name| ==> needle[k] == name[k];
    assert needle[|name|] == '=';
    if at + |name| < |text| { LoweredChar(text[at + |name|], '='); }
    if 0 < at <= |text| {
      LoweredChar(text[at - 1], '?');
      LoweredChar(text[at - 1], '&');
    }
    hide OccursAt, Spells, LowerChar, IsWord, IsWordChar;
    assert OccursAt(lowered, needle, at)
           <==> Spells(text, at, name) && at + |name| < |text| && text[at + |name|] == '=' by {
      if OccursAt(lowered, needle, at) { assert lowered[at + |name|] == needle[|name|]; }
    }
  }

  lemma {:induction false} ValuesMasked(r: Redaction, name: string, queryOnly: bool)
    requires NoCapitals(name) && EveryValueRemoved(r, name + "=", queryOnly)
    ensures EveryParameterMasked(r, name, queryOnly)
  {
    hide NamesParameter, Names, Lower;
    match r
    case Whole(text) =>
      forall k: nat ensures !Names(text, name, k, queryOnly) { NamesExactly(text, name, k, queryOnly); }
    case Masked(kept, removed, rest) =>
      forall k: nat
        ensures NamesParameter(Lower(kept), name + "=", k, queryOnly) <==> Names(kept, name, k, queryOnly)
      {
        NamesExactly(kept, name, k, queryOnly);
      }
      assert forall i :: 0 <= i < |removed| ==> removed[i] in removed;
      ValuesMasked(rest, name, queryOnly);
  }

  /** The parameters in the order of their passes, and whether each must be in query position. */
  const PASSES: seq<(string, bool)> :=
    [("access_token", false), ("id_token", false), ("refresh_token", false), ("client_secret", false),
     ("password", false), ("sig", false), ("signature", false), ("token", false), ("secret", false), ("code", true)]

  lemma NeedlesArePasses()
    ensures |Needles()| == |PASSES| == 10
    ensures forall i :: 0 <= i < 10 ==> Needles()[i] == (PASSES[i].0 + "=", PASSES[i].1) && NoCapitals(PASSES[i].0)
  {
    forall i | 0 <= i < 10 ensures NoCapitals(PASSES[i].0) { PassHasNoCapitals(i); }
    hide NoCapitals;
  }

  lemma PassHasNoCapitals(i: nat)
    requires i < 10
    ensures NoCapitals(PASSES[i].0)
  {
  }

  /** One pass after the other, each over what the earlier ones left, turns a text into another. */
  ghost predicate ParametersMasked(text: string, out: string, passes: seq<(string, bool)>)
    decreases |passes|
  {
    if passes == [] then out == text
    else
      var n := |passes| - 1;
      exists r :: EveryParameterMasked(r, passes[n].0, passes[n].1) && Output(r) == out
                  && ParametersMasked(text, Source(r), passes[..n])
  }

  lemma {:induction false} PassesMask(text: string, needles: seq<(string, bool)>, passes: seq<(string, bool)>)
    requires |needles| == |passes|
    requires forall i :: 0 <= i < |needles| ==>
               needles[i] == (passes[i].0 + "=", passes[i].1) && IsNeedle(needles[i].0) && NoCapitals(passes[i].0)
    ensures ParametersMasked(text, MaskParameters(text, needles), passes)
    decreases |needles|
  {
    hide IsNeedle, NoCapitals, ParameterSpans, EveryParameterMasked;
    if needles != [] {
      var n := |needles| - 1;
      PassesMask(text, needles[..n], passes[..n]);
      var before := MaskParameters(text, needles[..n]);
      var r := ParameterSpans(before, needles[n].0, needles[n].1);
      ParameterSource(before, needles[n].0, needles[n].1);
      ParameterValuesRemoved(before, needles[n].0, needles[n].1);
      ValuesMasked(r, passes[n].0, passes[n].1);
    }
  }

  // ---- URL userinfo ----

  /** The characters Unicode calls white space. */
  predicate IsWhite(c: char) {
    c in {'\t', '\n', '\U{b}', '\U{c}', '\r', ' ', '\U{85}', '\U{a0}', '\U{1680}', '\U{2028}', '\U{2029}',
          '\U{202f}', '\U{205f}', '\U{3000}'}
    || '\U{2000}' <= c <= '\U{200a}'
  }

  predicate EndsAuthority(c: char) { c == '/' || c == '?' || c == '#' || IsWhite(c) }

  lemma AuthorityEnds(c: char)
    ensures EndsUserinfo(c) <==> EndsAuthority(c)
  {
  }

  /** A scheme stands here, and up to the `@` its authority names a user and a password. */
  predicate UserinfoAt(text: string, k: nat, end: nat) {
    && k + 3 <= end < |text| && text[k] == ':' && text[k + 1] == '/' && text[k + 2] == '/' && text[end] == '@'
    && (forall j :: k + 3 <= j < end ==> text[j] != '@' && !EndsAuthority(text[j]))
    && exists j :: k + 3 <= j < end && text[j] == ':'
  }

  predicate Scheme(text: string, k: nat) {
    k + 3 <= |text| && text[k] == ':' && text[k + 1] == '/' && text[k + 2] == '/'
  }

  lemma SchemeExactly(text: string, k: nat)
    ensures OccursAt(text, "://", k) <==> Scheme(text, k)
  {
    OccursPointwise(text, "://", k);
    assert "://"[0] == ':' && "://"[1] == '/' && "://"[2] == '/';
  }

  lemma UserinfoExactly(text: string, k: nat, end: nat)
    requires Scheme(text, k) && k + 3 <= end
    ensures UserinfoEnd(text[k + 3..]) == Some(end - k - 3) <==> UserinfoAt(text, k, end)
  {
    var after := text[k + 3..];
    assert forall j :: 0 <= j < |after| ==> after[j] == text[k + 3 + j];
    forall c: char ensures EndsUserinfo(c) <==> EndsAuthority(c) { AuthorityEnds(c); }
    hide EndsUserinfo, EndsAuthority;
    var boundary := SkipTo(after, 0, EndsUserinfo);
    var authority := after[..boundary];
    var at := SkipTo(authority, 0, c => c == '@');
    if UserinfoAt(text, k, end) {
      var n := end - k - 3;
      assert n < boundary;
      StopsAt(authority, 0, n, c => c == '@');
      var j :| k + 3 <= j < end && text[j] == ':';
      assert authority[..n][j - k - 3] == ':';
    } else if at < boundary && ':' in authority[..at] {
      var j :| 0 <= j < at && authority[..at][j] == ':';
      assert text[k + 3 + j] == ':';
    }
  }

  ghost predicate NoUserinfoBefore(text: string, end: nat) {
    forall k: nat, at: nat :: k < end ==> !UserinfoAt(text, k, at)
  }

  /** Every removed span is the userinfo of the first authority that has one, and the last kept text has none. */
  ghost predicate EveryUserinfoMasked(r: Redaction) {
    match r
    case Whole(text) => NoUserinfoBefore(text, |text|)
    case Masked(kept, removed, rest) =>
      && |kept| >= 3 && UserinfoAt(Source(r), |kept| - 3, |kept| + |removed|)
      && NoUserinfoBefore(Source(r), |kept| - 3)
      && EveryUserinfoMasked(rest)
  }

  lemma UserinfoBehind(head: string, text: string, k: nat, end: nat)
    requires |head| <= k
    ensures UserinfoAt(head + text, k, end) <==> end >= |head| && UserinfoAt(text, k - |head|, end - |head|)
  {
    var whole, n := head + text, |head|;
    assert forall j :: 0 <= j < |text| ==> whole[n + j] == text[j];
    hide EndsAuthority;
    if UserinfoAt(whole, k, end) {
      var j :| k + 3 <= j < end && whole[j] == ':';
      assert text[j - n] == ':';
    }
    if end >= n && UserinfoAt(text, k - n, end - n) {
      var j :| k - n + 3 <= j < end - n && text[j] == ':';
      assert whole[n + j] == ':';
      forall i | k + 3 <= i < end ensures whole[i] != '@' && !EndsAuthority(whole[i]) {
        assert whole[i] == text[i - n];
      }
    }
  }

  lemma BehindHead(head: string, text: string, n: nat)
    requires NoUserinfoBefore(head + text, |head|) && NoUserinfoBefore(text, n)
    ensures NoUserinfoBefore(head + text, |head| + n)
  {
    hide UserinfoAt;
    forall k: nat, end: nat | |head| <= k < |head| + n ensures !UserinfoAt(head + text, k, end) {
      UserinfoBehind(head, text, k, end);
    }
  }

  /** Text in front that holds no authority with userinfo changes nothing behind it. */
  lemma PrependMasked(head: string, r: Redaction)
    requires EveryUserinfoMasked(r) && NoUserinfoBefore(head + Source(r), |head|)
    ensures EveryUserinfoMasked(Prepend(head, r))
  {
    hide UserinfoAt;
    match r
    case Whole(text) => BehindHead(head, text, |text|);
    case Masked(kept, removed, rest) =>
      var p := Prepend(head, r);
      assert Source(p) == head + Source(r);
      UserinfoBehind(head, Source(r), |head| + |kept| - 3, |head| + |kept| + |removed|);
      BehindHead(head, Source(r), |kept| - 3);
  }

  lemma NoSchemeBefore(text: string, scheme: nat)
    requires forall k: nat :: k < scheme ==> !OccursAt(text, "://", k)
    ensures NoUserinfoBefore(text, scheme)
  {
    forall k: nat, end: nat | k < scheme ensures !UserinfoAt(text, k, end) { SchemeExactly(text, k); }
  }

  lemma NoSchemeWithin(text: string, scheme: nat)
    requires OccursAt(text, "://", scheme) && UserinfoEnd(text[scheme + 3..]).None?
    requires NoUserinfoBefore(text, scheme)
    ensures NoUserinfoBefore(text, scheme + 3)
  {
    SchemeExactly(text, scheme);
    hide OccursAt, UserinfoEnd;
    forall k: nat, end: nat | k < scheme + 3 ensures !UserinfoAt(text, k, end) {
      if k == scheme && scheme + 3 <= end { UserinfoExactly(text, scheme, end); }
    }
  }

  /** What the pass over authorities removes is every userinfo of its input, and nothing else. */
  lemma {:induction false} UserinfoMasked(text: string)
    ensures var r := UserinfoSpans(text); Source(r) == text && EveryUserinfoMasked(r)
    decreases |text|
  {
    UserinfoSource(text);
    var found := Find(text, "://");
    hide Find, Occurs, OccursAt, UserinfoEnd, UserinfoAt, NoUserinfoBefore, Prepend;
    if found.None? {
      NoSchemeAtAll(text);
    } else {
      var scheme := found.value;
      var head, after := text[..scheme + 3], text[scheme + 3..];
      NoSchemeBefore(text, scheme);
      match UserinfoEnd(after)
      case None =>
        UserinfoMasked(after);
        assert head + after == text;
        NoSchemeWithin(text, scheme);
        PrependMasked(head, UserinfoSpans(after));
      case Some(at) =>
        var later := after[at + 1..];
        UserinfoMasked(later);
        SchemeExactly(text, scheme);
        UserinfoExactly(text, scheme, scheme + 3 + at);
        AtSignFirst("@" + later);
        PrependMasked("@", UserinfoSpans(later));
    }
  }

  lemma NoSchemeAtAll(text: string)
    requires !Occurs("://", text)
    ensures NoUserinfoBefore(text, |text|)
  {
    NoSchemeBefore(text, |text|);
  }

  lemma AtSignFirst(text: string)
    requires text != [] && text[0] == '@'
    ensures NoUserinfoBefore(text, 1)
  {
  }

  /** After the pass no authority names a user and a password any more. */
  lemma NoUserinfoLeft(text: string)
    ensures var out := Output(UserinfoSpans(text)); NoUserinfoBefore(out, |out|)
  {
    UserinfoIsGone(text);
    var out := Output(UserinfoSpans(text));
    hide UserinfoSpans, Output, UserinfoAt, UserinfoEnd, OccursAt;
    forall k: nat, end: nat | k < |out| ensures !UserinfoAt(out, k, end) { NoUserinfoHere(out, k, end); }
  }

  lemma NoUserinfoHere(text: string, k: nat, end: nat)
    requires NoUserinfo(text)
    ensures !UserinfoAt(text, k, end)
  {
    SchemeExactly(text, k);
    hide OccursAt, UserinfoEnd;
    if Scheme(text, k) && k + 3 <= end { UserinfoExactly(text, k, end); }
  }

  // ---- Registered secrets ----

  predicate Stands(text: string, word: string, at: nat) {
    at + |word| <= |text| && forall k :: 0 <= k < |word| ==> text[at + k] == word[k]
  }

  /** Every removed span is the secret where it first stands, and the last kept text does not hold it. */
  ghost predicate EverySecretMasked(r: Redaction, secret: string) {
    match r
    case Whole(text) => forall k: nat :: !Stands(text, secret, k)
    case Masked(kept, removed, rest) =>
      && removed == secret && (forall k: nat :: k < |kept| ==> !Stands(Source(r), secret, k))
      && EverySecretMasked(rest, secret)
  }

  lemma StandsExactly(text: string, word: string, at: nat)
    ensures OccursAt(text, word, at) <==> Stands(text, word, at)
  {
    OccursPointwise(text, word, at);
  }

  lemma {:induction false} SecretMasked(text: string, secret: string)
    requires secret != []
    ensures EverySecretMasked(SecretSpans(text, secret), secret)
    decreases |text|
  {
    SecretSource(text, secret);
    forall k: nat ensures OccursAt(text, secret, k) <==> Stands(text, secret, k) { StandsExactly(text, secret, k); }
    var found := Find(text, secret);
    hide OccursAt, Stands;
    if found.Some? { SecretMasked(text[found.value + |secret|..], secret); }
  }

  /** One secret after the other, each in what the earlier ones left, turns a text into another. */
  ghost predicate SecretsMasked(text: string, out: string, secrets: seq<string>)
    decreases |secrets|
  {
    if secrets == [] then out == text
    else
      var n := |secrets| - 1;
      exists r :: EverySecretMasked(r, secrets[n]) && Output(r) == out && SecretsMasked(text, Source(r), secrets[..n])
  }

  lemma {:induction false} EachSecretMasked(text: string, secrets: seq<string>)
    requires AllNonEmpty(secrets)
    ensures SecretsMasked(text, MaskSecrets(text, secrets), secrets)
    decreases |secrets|
  {
    hide SecretSpans, EverySecretMasked;
    if secrets != [] {
      var n := |secrets| - 1;
      EachSecretMasked(text, secrets[..n]);
      var before := MaskSecrets(text, secrets[..n]);
      SecretMasked(before, secrets[n]);
      SecretSource(before, secrets[n]);
      assert Output(SecretSpans(before, secrets[n])) == MaskSecrets(text, secrets);
    }
  }

  // ---- The whole redaction ----

  /**
   * Each registered secret is masked, then every userinfo, then every listed parameter's value, then
   * every sensitive key's value, each over what the steps before it left, and nothing else changes.
   */
  ghost predicate Redacted(secrets: seq<string>, text: string, out: string) {
    exists u, k ::
      SecretsMasked(text, Source(u), secrets) && EveryUserinfoMasked(u)
      && ParametersMasked(Output(u), Source(k), PASSES) && EveryKeyMasked(Source(k), 0, k)
      && out == Output(k)
  }

  lemma RedactedStepByStep(secrets: seq<string>, text: string)
    requires AllNonEmpty(secrets)
    ensures Redacted(secrets, text, RedactText(secrets, text))
  {
    RedactTextIs(secrets, text);
    var masked := MaskSecrets(text, secrets);
    hide *;
    EachSecretMasked(text, secrets);
    UserinfoMasked(masked);
    var u := UserinfoSpans(masked);
    ParametersStep(Output(u));
    var parameters := MaskParameters(Output(u), Needles());
    KeyValuesMasked(parameters);
    StepsCompose(secrets, text, u, KeyValueSpans(parameters, 0));
  }

  lemma ParametersStep(text: string)
    ensures ParametersMasked(text, MaskParameters(text, Needles()), PASSES)
  {
    NeedlesArePasses();
    hide ParametersMasked, MaskParameters, NoCapitals, IsNeedle, Needles;
    PassesMask(text, Needles(), PASSES);
  }

  lemma StepsCompose(secrets: seq<string>, text: string, u: Redaction, k: Redaction)
    requires SecretsMasked(text, Source(u), secrets) && EveryUserinfoMasked(u)
    requires ParametersMasked(Output(u), Source(k), PASSES) && EveryKeyMasked(Source(k), 0, k)
    ensures Redacted(secrets, text, Output(k))
  {
    hide SecretsMasked, EveryUserinfoMasked, ParametersMasked, EveryKeyMasked, Source, Output;
  }
}
