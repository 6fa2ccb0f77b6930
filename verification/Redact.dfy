/** Core's second redaction pass: registered secrets, then URL userinfo, parameters and key-value pairs. */
module Redact {
  import opened Wrappers
  import opened Ordering
  import opened Utf8
  import Sorting

  const MARKER := "[redacted]"

  const SENSITIVE_KEY_FRAGMENTS: seq<string> :=
    ["authorization", "cookie", "token", "password", "passwd", "secret", "signature", "credential", "assertion",
     "client_secret", "refresh", "session", "continuation_url", "www_authenticate"]

  const SENSITIVE_PARAMETERS: seq<string> :=
    ["access_token", "id_token", "refresh_token", "client_secret", "password", "sig", "signature", "token", "secret"]

  /** Redacted only right after a `?` or `&`. */
  const QUERY_ONLY_PARAMETERS: seq<string> := ["code"]

  // ---- Occurrence and search ----

  predicate OccursAt(text: string, pattern: string, at: nat) {
    at + |pattern| <= |text| && text[at..at + |pattern|] == pattern
  }

  predicate Occurs(pattern: string, text: string) {
    exists at: nat :: at <= |text| && OccursAt(text, pattern, at)
  }

  /** The first occurrence at or after a position. */
  function FindFrom(text: string, pattern: string, from: nat): (at: Option<nat>)
    requires from <= |text|
    ensures at.Some? ==> from <= at.value && OccursAt(text, pattern, at.value)
    ensures forall k: nat :: from <= k <= |text| && OccursAt(text, pattern, k) ==> at.Some? && at.value <= k
    decreases |text| - from
  {
    if OccursAt(text, pattern, from) then Some(from)
    else if from == |text| then None
    else FindFrom(text, pattern, from + 1)
  }

  function Find(text: string, pattern: string): (at: Option<nat>)
    ensures at.None? <==> !Occurs(pattern, text)
    ensures at.Some? ==> at.value + |pattern| <= |text|
    ensures at.Some? ==>
              OccursAt(text, pattern, at.value) && forall k: nat :: k < at.value ==> !OccursAt(text, pattern, k)
  {
    FindFrom(text, pattern, 0)
  }

  /** The first position at or after `from` whose character satisfies a test, or the end. */
  function SkipTo(text: string, from: nat, test: char -> bool): (at: nat)
    requires from <= |text|
    ensures from <= at <= |text|
    ensures forall k :: from <= k < at ==> !test(text[k])
    ensures at < |text| ==> test(text[at])
    decreases |text| - from
  {
    if from == |text| || test(text[from]) then from else SkipTo(text, from + 1, test)
  }

  // ---- What every pass does ----

  /** A text with some spans marked for removal: kept text, one removed span, and the rest. */
  datatype Redaction = Whole(text: string) | Masked(kept: string, removed: string, rest: Redaction)

  function Source(r: Redaction): string {
    match r
    case Whole(text) => text
    case Masked(kept, removed, rest) => kept + removed + Source(rest)
  }

  function Output(r: Redaction): string {
    match r
    case Whole(text) => text
    case Masked(kept, removed, rest) => kept + MARKER + Output(rest)
  }

  /** Keeps a text in front of what is already marked. */
  function Prepend(kept: string, r: Redaction): (p: Redaction)
    ensures Source(p) == kept + Source(r) && Output(p) == kept + Output(r)
  {
    match r
    case Whole(text) => Whole(kept + text)
    case Masked(k, removed, rest) =>
      assert kept + (k + removed + Source(rest)) == kept + k + removed + Source(rest);
      assert kept + (k + MARKER + Output(rest)) == kept + k + MARKER + Output(rest);
      Masked(kept + k, removed, rest)
  }

  lemma MaskedSource(text: string, from: nat, to: nat, rest: Redaction)
    requires from <= to <= |text| && Source(rest) == text[to..]
    ensures Source(Masked(text[..from], text[from..to], rest)) == text
  {
    assert text == text[..from] + text[from..to] + text[to..];
  }

  predicate StartsWith(text: string, part: string) { part <= text }

  predicate EndsWith(text: string, part: string) { |part| <= |text| && text[|text| - |part|..] == part }

  /** `j` characters at one end of a pattern are the `j` at the other end of a mark. */
  predicate Meets(pattern: string, mark: string, j: nat)
    requires j <= |mark|
  {
    EndsWith(pattern, mark[..j]) || StartsWith(pattern, mark[|mark| - j..])
  }

  /** Neither text lies inside the other, and no end of one meets the other's. */
  predicate Clear(pattern: string, mark: string) {
    !Occurs(pattern, mark) && !Occurs(mark, pattern) && forall j :: 1 <= j <= |mark| ==> !Meets(pattern, mark, j)
  }

  /** A secret no occurrence of which can share a character with the marker. */
  predicate NoOverlap(secret: string) { Clear(secret, MARKER) }

  lemma OccursIn(pattern: string, text: string, at: nat)
    requires OccursAt(text, pattern, at)
    ensures Occurs(pattern, text)
  {
  }

  lemma AbsentFromPart(pattern: string, before: string, part: string, after: string)
    requires !Occurs(pattern, before + part + after)
    ensures !Occurs(pattern, part)
  {
    var whole := before + part + after;
    forall at: nat | at <= |part| ensures OccursAt(part, pattern, at) ==> OccursAt(whole, pattern, |before| + at) {
      if at + |pattern| <= |part| {
        assert whole[|before| + at..|before| + at + |pattern|] == part[at..at + |pattern|];
      }
    }
  }

  lemma OccursPointwise(text: string, pattern: string, at: nat)
    ensures OccursAt(text, pattern, at)
            <==> at + |pattern| <= |text| && forall k :: 0 <= k < |pattern| ==> text[at + k] == pattern[k]
  {
    if at + |pattern| <= |text| {
      var window := text[at..at + |pattern|];
      assert forall k :: 0 <= k < |pattern| ==> window[k] == text[at + k];
    }
  }

  /** An occurrence inside one part of a text is an occurrence in that part. */
  lemma OccursWithin(text: string, pattern: string, at: nat, before: string, part: string, after: string)
    requires text == before + part + after && OccursAt(text, pattern, at)
    requires |before| <= at && at + |pattern| <= |before| + |part|
    ensures Occurs(pattern, part)
  {
    assert part[at - |before|..at - |before| + |pattern|] == text[at..at + |pattern|];
    OccursIn(pattern, part, at - |before|);
  }

  lemma HoldsMark(pattern: string, before: string, mark: string, after: string, at: nat)
    requires OccursAt(before + mark + after, pattern, at)
    requires at <= |before| && |before| + |mark| <= at + |pattern|
    ensures Occurs(mark, pattern)
  {
    OccursPointwise(before + mark + after, pattern, at);
    OccursPointwise(pattern, mark, |before| - at);
    OccursIn(mark, pattern, |before| - at);
  }

  lemma EndsInMark(pattern: string, before: string, mark: string, after: string, at: nat)
    requires OccursAt(before + mark + after, pattern, at)
    requires at <= |before| <= at + |pattern| <= |before| + |mark|
    ensures Meets(pattern, mark, at + |pattern| - |before|)
  {
    var whole, tail := before + mark + after, pattern[|before| - at..];
    OccursPointwise(whole, pattern, at);
    assert forall k :: 0 <= k < |tail| ==> tail[k] == whole[|before| + k] == mark[k];
  }

  lemma StartsInMark(pattern: string, before: string, mark: string, after: string, at: nat)
    requires OccursAt(before + mark + after, pattern, at)
    requires |before| <= at <= |before| + |mark| <= at + |pattern|
    ensures Meets(pattern, mark, |before| + |mark| - at)
  {
    var whole, head := before + mark + after, mark[at - |before|..];
    assert head == mark[|mark| - (|before| + |mark| - at)..];
    OccursPointwise(whole, pattern, at);
    assert forall k :: 0 <= k < |head| ==> head[k] == whole[at + k] == pattern[k];
  }

  /** A pattern clear of a mark occurs around it only where it occurred already. */
  lemma OccursAround(pattern: string, before: string, mark: string, after: string)
    requires Clear(pattern, mark) && Occurs(pattern, before + mark + after)
    ensures Occurs(pattern, before) || Occurs(pattern, after)
  {
    var whole := before + mark + after;
    var at: nat :| at <= |whole| && OccursAt(whole, pattern, at);
    OccursBounded(whole, pattern, at);
    hide OccursAt, Occurs, Meets;
    var end, open, close := at + |pattern|, |before|, |before| + |mark|;
    if end <= open {
      assert whole == "" + before + (mark + after);
      OccursWithin(whole, pattern, at, "", before, mark + after);
    } else if at >= close {
      assert whole == before + mark + after + "";
      OccursWithin(whole, pattern, at, before + mark, after, "");
    } else if open <= at && end <= close {
      OccursWithin(whole, pattern, at, before, mark, after);
    } else if at <= open && close <= end {
      HoldsMark(pattern, before, mark, after, at);
    } else if at < open {
      EndsInMark(pattern, before, mark, after, at);
    } else {
      StartsInMark(pattern, before, mark, after, at);
    }
  }

  lemma OccursAroundMarker(pattern: string, before: string, after: string)
    requires NoOverlap(pattern) && Occurs(pattern, before + MARKER + after)
    ensures Occurs(pattern, before) || Occurs(pattern, after)
  {
    hide Clear, Occurs;
    OccursAround(pattern, before, MARKER, after);
  }

  /** Replacing spans by the marker never spells a secret clear of the marker that was not there. */
  lemma {:induction false} MaskingSpellsNothing(r: Redaction, secret: string)
    requires NoOverlap(secret) && !Occurs(secret, Source(r))
    ensures !Occurs(secret, Output(r))
  {
    match r
    case Whole(_) =>
    case Masked(kept, removed, rest) =>
      assert Source(r) == "" + kept + (removed + Source(rest)) == kept + removed + Source(rest) + "";
      hide Occurs;
      AbsentFromPart(secret, "", kept, removed + Source(rest));
      AbsentFromPart(secret, kept + removed, Source(rest), "");
      MaskingSpellsNothing(rest, secret);
      if Occurs(secret, Output(r)) { OccursAroundMarker(secret, kept, Output(rest)); }
  }

  // ---- Registered secrets ----

  /** Leftmost, non-overlapping occurrences of a secret. */
  function SecretSpans(text: string, secret: string): (r: Redaction)
    requires secret != []
    decreases |text|
  {
    match Find(text, secret)
    case None => Whole(text)
    case Some(at) => Masked(text[..at], secret, SecretSpans(text[at + |secret|..], secret))
  }

  lemma {:induction false} SecretSource(text: string, secret: string)
    requires secret != []
    ensures Source(SecretSpans(text, secret)) == text
    decreases |text|
  {
    hide Occurs;
    var at := Find(text, secret);
    if at.Some? {
      assert text[at.value..at.value + |secret|] == secret;
      hide OccursAt;
      SecretSource(text[at.value + |secret|..], secret);
      MaskedSource(text, at.value, at.value + |secret|, SecretSpans(text[at.value + |secret|..], secret));
    }
  }

  /** What replacement removes is the secret itself, and nothing kept still holds it. */
  lemma {:induction false} ReplacedIsGone(text: string, secret: string)
    requires secret != [] && NoOverlap(secret)
    ensures !Occurs(secret, Output(SecretSpans(text, secret)))
    decreases |text|
  {
    match Find(text, secret)
    case None =>
    case Some(at) =>
      AbsentBefore(text, secret, at);
      hide Occurs, OccursAt, Find;
      var rest := SecretSpans(text[at + |secret|..], secret);
      ReplacedIsGone(text[at + |secret|..], secret);
      if Occurs(secret, text[..at] + MARKER + Output(rest)) { OccursAroundMarker(secret, text[..at], Output(rest)); }
  }

  lemma AbsentBefore(text: string, pattern: string, at: nat)
    requires at <= |text| && forall k: nat :: k < at ==> !OccursAt(text, pattern, k)
    requires pattern != []
    ensures !Occurs(pattern, text[..at])
  {
    forall k: nat | k <= at && OccursAt(text[..at], pattern, k) ensures OccursAt(text, pattern, k) {
      assert text[k..k + |pattern|] == text[..at][k..k + |pattern|];
    }
  }

  // ---- URL userinfo ----

  predicate IsWhitespace(c: char) {
    var n := c as int;
    9 <= n <= 13 || n == 0x20 || n == 0x85 || n == 0xA0 || n == 0x1680 || 0x2000 <= n <= 0x200A
    || n == 0x2028 || n == 0x2029 || n == 0x202F || n == 0x205F || n == 0x3000
  }

  predicate EndsUserinfo(c: char) { c == '/' || c == '?' || c == '#' || IsWhitespace(c) }

  /** Where the userinfo of an authority ends, if it holds a user and a password. */
  function UserinfoEnd(after: string): (at: Option<nat>)
    ensures at.Some? ==> at.value < |after| && after[at.value] == '@'
  {
    var authority := after[..SkipTo(after, 0, EndsUserinfo)];
    var at := SkipTo(authority, 0, c => c == '@');
    if at < |authority| && ':' in authority[..at] then Some(at) else None
  }

  function UserinfoSpans(text: string): (r: Redaction)
    decreases |text|
  {
    match Find(text, "://")
    case None => Whole(text)
    case Some(scheme) =>
      var head, after := text[..scheme + 3], text[scheme + 3..];
      match UserinfoEnd(after)
      case None => Prepend(head, UserinfoSpans(after))
      case Some(at) => Masked(head, after[..at], Prepend("@", UserinfoSpans(after[at + 1..])))
  }

  lemma {:induction false} UserinfoSource(text: string)
    ensures Source(UserinfoSpans(text)) == text
    decreases |text|
  {
    hide Find, Occurs, OccursAt, UserinfoEnd, Prepend;
    var found := Find(text, "://");
    if found.Some? {
      var head, after := text[..found.value + 3], text[found.value + 3..];
      var end := UserinfoEnd(after);
      if end.None? {
        UserinfoSource(after);
        assert head + after == text;
      } else {
        UserinfoSource(after[end.value + 1..]);
        RemovedUserinfo(text, found.value + 3, end.value);
      }
    }
  }

  lemma RemovedUserinfo(text: string, from: nat, at: nat)
    requires from + at < |text| && text[from..][at] == '@'
    ensures text == text[..from] + text[from..][..at] + ("@" + text[from..][at + 1..])
  {
    var after := text[from..];
    assert after == after[..at] + ("@" + after[at + 1..]);
    assert text == text[..from] + after;
  }

  /** No authority in a text names a user and a password. */
  predicate NoUserinfo(text: string) {
    forall k: nat :: k + 3 <= |text| && OccursAt(text, "://", k) ==> UserinfoEnd(text[k + 3..]).None?
  }

  /** Two texts that agree up to a character that ends an authority have the same userinfo. */
  lemma SameAuthority(a: string, b: string, shared: nat, bar: nat)
    requires bar < shared <= |a| && shared <= |b| && a[..shared] == b[..shared] && EndsUserinfo(a[bar])
    ensures UserinfoEnd(a) == UserinfoEnd(b)
  {
    assert forall k :: 0 <= k < shared ==> a[k] == a[..shared][k] == b[k];
    var m, n := SkipTo(a, 0, EndsUserinfo), SkipTo(b, 0, EndsUserinfo);
    assert m <= bar && n <= bar && m == n;
    assert a[..m] == b[..n];
  }

  /** What the pass writes starts as its input does, up to and including the first scheme. */
  lemma UserinfoKeepsAuthority(after: string)
    ensures UserinfoEnd(Output(UserinfoSpans(after))) == UserinfoEnd(after)
  {
    hide UserinfoEnd, Occurs;
    var found := Find(after, "://");
    if found.Some? {
      var scheme := found.value;
      var out := Output(UserinfoSpans(after));
      OccursPointwise(after, "://", scheme);
      assert after[scheme + 1] == "://"[1] == '/';
      assert out[..scheme + 3] == after[..scheme + 3];
      SameAuthority(after, out, scheme + 3, scheme + 1);
    }
  }

  lemma MarkerIsNoUserinfo(rest: string)
    ensures UserinfoEnd(MARKER + "@" + rest).None?
  {
    var text := MARKER + "@" + rest;
    assert forall k :: 0 <= k < 10 ==> text[k] == MARKER[k] && text[k] != '@' && !EndsUserinfo(text[k]);
    assert text[10] == '@' && !EndsUserinfo(text[10]);
    var boundary := SkipTo(text, 0, EndsUserinfo);
    assert boundary >= 11;
    var authority := text[..boundary];
    assert SkipTo(authority, 0, c => c == '@') == 10;
    assert authority[..10] == MARKER;
  }

  /** In front of text without userinfo, a head that holds one scheme, at its end, adds none of its own. */
  lemma HeadAddsNone(head: string, rest: string)
    requires |head| >= 3 && OccursAt(head, "://", |head| - 3)
    requires forall k: nat :: k < |head| - 3 ==> !OccursAt(head, "://", k)
    requires NoUserinfo(rest) && UserinfoEnd(rest).None?
    ensures NoUserinfo(head + rest)
  {
    hide UserinfoEnd;
    var text, n := head + rest, |head|;
    OccursPointwise(head, "://", n - 3);
    assert head[n - 3 + 1] == '/' && head[n - 3 + 2] == '/';
    forall k: nat | k + 3 <= |text| && OccursAt(text, "://", k) ensures UserinfoEnd(text[k + 3..]).None? {
      OccursPointwise(text, "://", k);
      assert text[k + 0] == "://"[0] == ':';
      if k < n - 3 {
        OccursPointwise(head, "://", k);
      } else if k == n - 3 {
        assert text[n..] == rest;
      } else if k >= n {
        OccursPointwise(rest, "://", k - n);
        assert text[k + 3..] == rest[k - n + 3..];
      }
    }
  }

  /** After the pass no authority names a user and a password any more. */
  lemma {:induction false} UserinfoIsGone(text: string)
    ensures NoUserinfo(Output(UserinfoSpans(text)))
    decreases |text|
  {
    var found := Find(text, "://");
    UserinfoUnfolds(text);
    hide *;
    if found.None? {
      NoSchemeNoUserinfo(text);
    } else {
      var after := text[found.value + 3..];
      SchemeEndsHead(text, found.value);
      var end := UserinfoEnd(after);
      if end.None? {
        var later := Output(UserinfoSpans(after));
        UserinfoIsGone(after);
        UserinfoKeepsAuthority(after);
        HeadAddsNone(text[..found.value + 3], later);
      } else {
        var later := Output(UserinfoSpans(after[end.value + 1..]));
        UserinfoIsGone(after[end.value + 1..]);
        MarkerIsNoUserinfo(later);
        MarkerAddsNone(later);
        HeadAddsNone(text[..found.value + 3], MARKER + "@" + later);
      }
    }
  }

  lemma UserinfoUnfolds(text: string)
    ensures var found := Find(text, "://");
            Output(UserinfoSpans(text))
            == if found.None? then text
               else
                 var head, after := text[..found.value + 3], text[found.value + 3..];
                 match UserinfoEnd(after)
                 case None => head + Output(UserinfoSpans(after))
                 case Some(at) => head + (MARKER + "@" + Output(UserinfoSpans(after[at + 1..])))
  {
    hide Find, UserinfoEnd, Occurs, OccursAt;
    var found := Find(text, "://");
    if found.Some? {
      var head, after := text[..found.value + 3], text[found.value + 3..];
      if UserinfoEnd(after).Some? {
        var later := Output(UserinfoSpans(after[UserinfoEnd(after).value + 1..]));
        assert head + MARKER + ("@" + later) == head + (MARKER + "@" + later);
      }
    }
  }

  lemma NoSchemeNoUserinfo(text: string)
    requires !Occurs("://", text)
    ensures NoUserinfo(text)
  {
  }

  lemma SchemeEndsHead(text: string, scheme: nat)
    requires OccursAt(text, "://", scheme) && forall k: nat :: k < scheme ==> !OccursAt(text, "://", k)
    ensures var head := text[..scheme + 3];
            OccursAt(head, "://", scheme) && forall k: nat :: k < scheme ==> !OccursAt(head, "://", k)
  {
    var head := text[..scheme + 3];
    OccursPointwise(text, "://", scheme);
    OccursPointwise(head, "://", scheme);
    forall k: nat | k < scheme ensures !OccursAt(head, "://", k) {
      OccursPointwise(text, "://", k);
      OccursPointwise(head, "://", k);
    }
  }

  lemma MarkerAddsNone(rest: string)
    requires NoUserinfo(rest)
    ensures NoUserinfo(MARKER + "@" + rest)
  {
    hide UserinfoEnd;
    var front := MARKER + "@";
    var text := front + rest;
    assert forall k :: 0 <= k < 11 ==> text[k] == front[k] && text[k] != ':';
    forall k: nat | k + 3 <= |text| && OccursAt(text, "://", k) ensures UserinfoEnd(text[k + 3..]).None? {
      OccursPointwise(text, "://", k);
      assert text[k + 0] == "://"[0] == ':';
      OccursPointwise(rest, "://", k - 11);
      assert text[k + 3..] == rest[k - 11 + 3..];
    }
  }

  /** What has been written so far and what the rest will become are the whole pass. */
  predicate UserinfoResult(result: string, rest: string, text: string) {
    result + Output(UserinfoSpans(rest)) == Output(UserinfoSpans(text))
  }

  lemma UserinfoStep(result: string, rest: string, text: string, scheme: nat)
    requires UserinfoResult(result, rest, text) && Find(rest, "://") == Some(scheme)
    ensures var head, after := rest[..scheme + 3], rest[scheme + 3..];
            match UserinfoEnd(after)
            case Some(at) => UserinfoResult(result + head + MARKER + "@", after[at + 1..], text)
            case None => UserinfoResult(result + head, after, text)
  {
    UserinfoUnfolds(rest);
    hide Find, UserinfoEnd, UserinfoSpans, Output;
    var head, after := rest[..scheme + 3], rest[scheme + 3..];
    var end := UserinfoEnd(after);
    if end.Some? {
      Reassociate(result, head, MARKER + "@", Output(UserinfoSpans(after[end.value + 1..])));
      assert result + head + (MARKER + "@") == result + head + MARKER + "@";
    } else {
      Reassociate(result, head, "", Output(UserinfoSpans(after)));
      assert result + head + "" == result + head;
      assert "" + Output(UserinfoSpans(after)) == Output(UserinfoSpans(after));
    }
  }

  lemma Reassociate(a: string, b: string, c: string, d: string)
    ensures a + (b + (c + d)) == a + b + c + d
  {
  }

  lemma UserinfoBounds(text: string)
    ensures UserinfoResult("", text, text)
    ensures forall result, rest :: UserinfoResult(result, rest, text) && Find(rest, "://").None? ==>
              result + rest == Output(UserinfoSpans(text))
  {
    assert "" + Output(UserinfoSpans(text)) == Output(UserinfoSpans(text));
  }

  method RedactUrlUserinfo(text: string) returns (result: string)
    ensures result == Output(UserinfoSpans(text))
  {
    hide *;
    UserinfoBounds(text);
    result := "";
    var rest := text;
    var scheme := Find(rest, "://");
    while scheme.Some?
      invariant scheme == Find(rest, "://")
      invariant UserinfoResult(result, rest, text)
      decreases |rest|
    {
      UserinfoStep(result, rest, text, scheme.value);
      var head, after := rest[..scheme.value + 3], rest[scheme.value + 3..];
      match UserinfoEnd(after) {
        case Some(at) =>
          result := result + head + MARKER + "@";
          rest := after[at + 1..];
        case None =>
          result := result + head;
          rest := after;
      }
      scheme := Find(rest, "://");
    }
    result := result + rest;
  }

  // ---- Parameters ----

  predicate IsWordChar(c: char) {
    'a' <= c <= 'z' || 'A' <= c <= 'Z' || '0' <= c <= '9' || c == '_'
  }

  function LowerChar(c: char): char {
    if 'A' <= c <= 'Z' then ((c as int) + 32) as char else c
  }

  function Lower(text: string): (lowered: string)
    ensures |lowered| == |text|
  {
    seq(|text|, i requires 0 <= i < |text| => LowerChar(text[i]))
  }

  /** The name starts at a word boundary, and in query position where that is required. */
  predicate StartsName(lowered: string, at: nat, queryOnly: bool)
    requires at <= |lowered|
  {
    && (at == 0 || !IsWordChar(lowered[at - 1]))
    && (queryOnly ==> at > 0 && lowered[at - 1] in {'?', '&'})
  }

  predicate NamesParameter(lowered: string, needle: string, at: nat, queryOnly: bool) {
    at <= |lowered| && OccursAt(lowered, needle, at) && StartsName(lowered, at, queryOnly)
  }

  /** A parameter name holds no `=`, so a search may skip past an occurrence that does not qualify. */
  predicate IsNeedle(needle: string) {
    needle != [] && needle[|needle| - 1] == '=' && '=' !in needle[..|needle| - 1]
  }

  lemma NeedlesDoNotOverlap(lowered: string, needle: string, at: nat, k: nat)
    requires IsNeedle(needle) && OccursAt(lowered, needle, at) && OccursAt(lowered, needle, k) && at < k
    ensures at + |needle| <= k
  {
    OccursPointwise(lowered, needle, at);
    OccursPointwise(lowered, needle, k);
    var last := |needle| - 1;
    var name := needle[..last];
    assert forall i :: 0 <= i < last ==> name[i] in name;
    assert forall i :: 0 <= i < last ==> needle[i] == name[i] != '=';
    assert lowered[at + last] == needle[last];
  }

  /** The first qualifying occurrence at or after a position. */
  function FindParameterFrom(lowered: string, needle: string, from: nat, queryOnly: bool): (at: Option<nat>)
    requires from <= |lowered| && IsNeedle(needle)
    ensures at.Some? ==> from <= at.value && NamesParameter(lowered, needle, at.value, queryOnly)
    ensures forall k: nat :: from <= k && NamesParameter(lowered, needle, k, queryOnly) ==> at.Some? && at.value <= k
    decreases |lowered| - from
  {
    match FindFrom(lowered, needle, from)
    case None => None
    case Some(position) =>
      if StartsName(lowered, position, queryOnly) then Some(position)
      else
        assert forall k: nat :: from <= k && NamesParameter(lowered, needle, k, queryOnly) ==>
                 position + |needle| <= k by {
          forall k: nat | from <= k && NamesParameter(lowered, needle, k, queryOnly) ensures position + |needle| <= k {
            NeedlesDoNotOverlap(lowered, needle, position, k);
          }
        }
        FindParameterFrom(lowered, needle, position + |needle|, queryOnly)
  }

  predicate EndsParameter(c: char) { c == '&' || c == ';' || c == ' ' || c == '"' || c == '\'' }

  /** The next value to remove: from right after the `=` to the first terminator. */
  function ParameterCut(text: string, needle: string, queryOnly: bool): (cut: Option<(nat, nat)>)
    requires IsNeedle(needle)
    ensures cut.Some? ==> 0 < cut.value.0 <= cut.value.1 <= |text|
  {
    match FindParameterFrom(Lower(text), needle, 0, queryOnly)
    case None => None
    case Some(position) =>
      var value := position + |needle|;
      Some((value, SkipTo(text, value, EndsParameter)))
  }

  function ParameterSpans(text: string, needle: string, queryOnly: bool): (r: Redaction)
    requires IsNeedle(needle)
    decreases |text|
  {
    match ParameterCut(text, needle, queryOnly)
    case None => Whole(text)
    case Some((from, to)) => Masked(text[..from], text[from..to], ParameterSpans(text[to..], needle, queryOnly))
  }

  lemma {:induction false} ParameterSource(text: string, needle: string, queryOnly: bool)
    requires IsNeedle(needle)
    ensures Source(ParameterSpans(text, needle, queryOnly)) == text
    decreases |text|
  {
    hide ParameterCut, IsNeedle;
    var cut := ParameterCut(text, needle, queryOnly);
    if cut.Some? {
      ParameterSource(text[cut.value.1..], needle, queryOnly);
      MaskedSource(text, cut.value.0, cut.value.1, ParameterSpans(text[cut.value.1..], needle, queryOnly));
    }
  }

  /**
   * What a pass leaves: kept text names the parameter only right before a removed value, a removed
   * value runs to the first terminator, and after the last one the parameter is not named again.
   */
  ghost predicate EveryValueRemoved(r: Redaction, needle: string, queryOnly: bool) {
    match r
    case Whole(text) => forall k: nat :: !NamesParameter(Lower(text), needle, k, queryOnly)
    case Masked(kept, removed, rest) =>
      && |needle| <= |kept|
      && NamesParameter(Lower(kept), needle, |kept| - |needle|, queryOnly)
      && (forall k: nat :: k < |kept| - |needle| ==> !NamesParameter(Lower(kept), needle, k, queryOnly))
      && (forall c :: c in removed ==> !EndsParameter(c))
      && (Source(rest) != [] ==> EndsParameter(Source(rest)[0]))
      && EveryValueRemoved(rest, needle, queryOnly)
  }

  lemma NamesInPrefix(text: string, end: nat, needle: string, k: nat, queryOnly: bool)
    requires end <= |text|
    ensures NamesParameter(Lower(text[..end]), needle, k, queryOnly)
            <==> k + |needle| <= end && NamesParameter(Lower(text), needle, k, queryOnly)
  {
    var part, whole := Lower(text[..end]), Lower(text);
    assert part == whole[..end];
    OccursPointwise(part, needle, k);
    OccursPointwise(whole, needle, k);
  }

  lemma {:induction false} ParameterValuesRemoved(text: string, needle: string, queryOnly: bool)
    requires IsNeedle(needle)
    ensures EveryValueRemoved(ParameterSpans(text, needle, queryOnly), needle, queryOnly)
    decreases |text|
  {
    hide ParameterCut, IsNeedle, EveryValueRemoved, NamesParameter, Lower;
    var cut := ParameterCut(text, needle, queryOnly);
    CutIsFirstValue(text, needle, queryOnly);
    if cut.None? {
      NothingRemoved(text, needle, queryOnly);
    } else {
      var (from, to) := cut.value;
      var rest := ParameterSpans(text[to..], needle, queryOnly);
      ParameterValuesRemoved(text[to..], needle, queryOnly);
      ParameterSource(text[to..], needle, queryOnly);
      ValueRemoved(text, from - |needle|, to, rest, needle, queryOnly);
    }
  }

  lemma CutIsFirstValue(text: string, needle: string, queryOnly: bool)
    requires IsNeedle(needle)
    ensures var cut := ParameterCut(text, needle, queryOnly);
            if cut.None? then forall k: nat :: !NamesParameter(Lower(text), needle, k, queryOnly)
            else
              var (from, to) := cut.value;
              |needle| <= from && NamesParameter(Lower(text), needle, from - |needle|, queryOnly)
              && (forall k: nat :: NamesParameter(Lower(text), needle, k, queryOnly) ==> from - |needle| <= k)
              && (forall k :: from <= k < to ==> !EndsParameter(text[k]))
              && (to < |text| ==> EndsParameter(text[to]))
  {
    hide FindParameterFrom, NamesParameter, Lower;
  }

  lemma NothingRemoved(text: string, needle: string, queryOnly: bool)
    requires forall k: nat :: !NamesParameter(Lower(text), needle, k, queryOnly)
    ensures EveryValueRemoved(Whole(text), needle, queryOnly)
  {
  }

  lemma ValueRemoved(text: string, at: nat, end: nat, rest: Redaction, needle: string, queryOnly: bool)
    requires at + |needle| <= end <= |text| && NamesParameter(Lower(text), needle, at, queryOnly)
    requires forall k: nat :: NamesParameter(Lower(text), needle, k, queryOnly) ==> at <= k
    requires forall k :: at + |needle| <= k < end ==> !EndsParameter(text[k])
    requires end < |text| ==> EndsParameter(text[end])
    requires Source(rest) == text[end..] && EveryValueRemoved(rest, needle, queryOnly)
    ensures EveryValueRemoved(Masked(text[..at + |needle|], text[at + |needle|..end], rest), needle, queryOnly)
  {
    hide NamesParameter, Lower;
    var kept := text[..at + |needle|];
    forall k: nat ensures NamesParameter(Lower(kept), needle, k, queryOnly)
                          <==> k + |needle| <= |kept| && NamesParameter(Lower(text), needle, k, queryOnly)
    {
      NamesInPrefix(text, |kept|, needle, k, queryOnly);
    }
  }

  /** The parameters in the order their passes run, as `name=` and whether query position is required. */
  function Needles(): (needles: seq<(string, bool)>)
    ensures forall i :: 0 <= i < |needles| ==> IsNeedle(needles[i].0)
  {
    seq(|SENSITIVE_PARAMETERS|, i requires 0 <= i < |SENSITIVE_PARAMETERS| => (SENSITIVE_PARAMETERS[i] + "=", false))
    + seq(|QUERY_ONLY_PARAMETERS|,
          i requires 0 <= i < |QUERY_ONLY_PARAMETERS| => (QUERY_ONLY_PARAMETERS[i] + "=", true))
  }

  function MaskParameters(text: string, needles: seq<(string, bool)>): string
    requires forall i :: 0 <= i < |needles| ==> IsNeedle(needles[i].0)
  {
    if needles == [] then text
    else
      var n := |needles| - 1;
      Output(ParameterSpans(MaskParameters(text, needles[..n]), needles[n].0, needles[n].1))
  }

  // ---- Key-value pairs ----

  function FirstFragment(lowered: string, at: nat, fragments: seq<string>): (fragment: Option<string>)
    requires at <= |lowered|
    ensures fragment.Some? ==> OccursAt(lowered, fragment.value, at)
  {
    if fragments == [] then None
    else if OccursAt(lowered, fragments[0], at) then Some(fragments[0])
    else FirstFragment(lowered, at, fragments[1..])
  }

  predicate EndsKeyName(c: char) { !(IsWordChar(c) || c == '-') }

  predicate NotSpace(c: char) { c != ' ' }

  predicate IsQuote(c: char) { c == '"' }

  predicate EndsBareValue(c: char) { c == ',' || c == ';' || c == '\n' || c == '"' || c == '&' }

  /** Past the rest of a key name, an optional closing quote and spaces: the separator's position. */
  function SeparatorAfter(lowered: string, afterFragment: nat): (separator: Option<nat>)
    requires afterFragment <= |lowered|
    ensures separator.Some? ==> afterFragment <= separator.value < |lowered|
                                && (lowered[separator.value] == ':' || lowered[separator.value] == '=')
  {
    var name := SkipTo(lowered, afterFragment, EndsKeyName);
    var unquoted := if name < |lowered| && (lowered[name] == '"' || lowered[name] == '\'') then name + 1 else name;
    var separator := SkipTo(lowered, unquoted, NotSpace);
    if separator == |lowered| || !(lowered[separator] == ':' || lowered[separator] == '=') then None
    else Some(separator)
  }

  /** The value after a separator: up to the closing quote, or to the first terminator. */
  function ValueAfter(lowered: string, separator: nat): (span: Option<(nat, nat)>)
    requires separator < |lowered|
    ensures span.Some? ==> separator < span.value.0 < span.value.1 <= |lowered|
  {
    var value := SkipTo(lowered, separator + 1, NotSpace);
    var quoted := value < |lowered| && lowered[value] == '"';
    var from := if quoted then value + 1 else value;
    var to := SkipTo(lowered, from, if quoted then IsQuote else EndsBareValue);
    if to == from then None else Some((from, to))
  }

  /** What stands to be masked behind a key: the value right of its separator, if it has both. */
  function ValueSpan(lowered: string, afterFragment: nat): (span: Option<(nat, nat)>)
    requires afterFragment <= |lowered|
    ensures span.Some? ==> afterFragment < span.value.0 < span.value.1 <= |lowered|
  {
    match SeparatorAfter(lowered, afterFragment)
    case None => None
    case Some(separator) => ValueAfter(lowered, separator)
  }

  /** The value to remove when a sensitive key starts here. */
  function KeyValueAt(lowered: string, at: nat): (span: Option<(nat, nat)>)
    requires at < |lowered|
    ensures span.Some? ==> at < span.value.0 < span.value.1 <= |lowered|
  {
    if at > 0 && IsWordChar(lowered[at - 1]) then None
    else
      match FirstFragment(lowered, at, SENSITIVE_KEY_FRAGMENTS)
      case None => None
      case Some(fragment) => ValueSpan(lowered, at + |fragment|)
  }

  function NextKeyValue(lowered: string, at: nat): (span: Option<(nat, nat)>)
    requires at <= |lowered|
    ensures span.Some? ==> at < span.value.0 < span.value.1 <= |lowered|
    decreases |lowered| - at
  {
    if at == |lowered| then None
    else if KeyValueAt(lowered, at).Some? then KeyValueAt(lowered, at)
    else NextKeyValue(lowered, at + 1)
  }

  /** The rest of a text from a position, which keeps seeing what stands before it. */
  function KeyValueSpans(text: string, at: nat): (r: Redaction)
    requires at <= |text|
    decreases |text| - at
  {
    match NextKeyValue(Lower(text), at)
    case None => Whole(text[at..])
    case Some((from, to)) => Masked(text[at..from], text[from..to], KeyValueSpans(text, to))
  }

  lemma {:induction false} KeyValueSource(text: string, at: nat)
    requires at <= |text|
    ensures Source(KeyValueSpans(text, at)) == text[at..]
    decreases |text| - at
  {
    hide NextKeyValue, Lower;
    var span := NextKeyValue(Lower(text), at);
    if span.Some? {
      var (from, to) := span.value;
      KeyValueSource(text, to);
      SlicesOfRest(text, at, from, to);
      MaskedSource(text[at..], from - at, to - at, KeyValueSpans(text, to));
    }
  }

  lemma SlicesOfRest(text: string, at: nat, from: nat, to: nat)
    requires at <= from <= to <= |text|
    ensures var rest := text[at..];
            text[at..from] == rest[..from - at] && text[from..to] == rest[from - at..to - at]
            && text[to..] == rest[to - at..]
  {
  }

  /** Kept text starts no sensitive key that has a value, except the key of the value removed next. */
  ghost predicate EveryKeyRemoved(lowered: string, at: nat, r: Redaction)
    decreases r
  {
    match r
    case Whole(_) => forall k :: at <= k < |lowered| ==> KeyValueAt(lowered, k).None?
    case Masked(kept, removed, rest) =>
      var from, to := at + |kept|, at + |kept| + |removed|;
      && (exists key :: at <= key < |lowered| && KeyValueAt(lowered, key) == Some((from, to))
                        && forall k :: at <= k < key ==> KeyValueAt(lowered, k).None?)
      && EveryKeyRemoved(lowered, to, rest)
  }

  lemma {:induction false} NextIsFirst(lowered: string, at: nat)
    requires at <= |lowered|
    ensures var span := NextKeyValue(lowered, at);
            if span.None? then forall k :: at <= k < |lowered| ==> KeyValueAt(lowered, k).None?
            else exists key :: at <= key < |lowered| && KeyValueAt(lowered, key) == span
                               && forall k :: at <= k < key ==> KeyValueAt(lowered, k).None?
    decreases |lowered| - at
  {
    hide KeyValueAt;
    if at < |lowered| && KeyValueAt(lowered, at).None? { NextIsFirst(lowered, at + 1); }
  }

  lemma {:induction false} KeyValuesRemoved(text: string, at: nat)
    requires at <= |text|
    ensures EveryKeyRemoved(Lower(text), at, KeyValueSpans(text, at))
    decreases |text| - at
  {
    hide KeyValueAt, NextKeyValue, Lower;
    NextIsFirst(Lower(text), at);
    var span := NextKeyValue(Lower(text), at);
    if span.Some? { KeyValuesRemoved(text, span.value.1); }
  }

  // ---- The passes as loops ----

  method FindParameter(text: string, needle: string, queryOnly: bool) returns (at: Option<nat>)
    requires IsNeedle(needle)
    ensures at == FindParameterFrom(Lower(text), needle, 0, queryOnly)
  {
    hide Lower, StartsName, OccursAt;
    var lowered := Lower(text);
    var from := 0;
    var position := FindFrom(lowered, needle, from);
    while position.Some?
      invariant 0 <= from <= |lowered| && position == FindFrom(lowered, needle, from)
      invariant FindParameterFrom(lowered, needle, from, queryOnly) == FindParameterFrom(lowered, needle, 0, queryOnly)
      decreases |lowered| - from
    {
      OccursBounded(lowered, needle, position.value);
      if StartsName(lowered, position.value, queryOnly) { return position; }
      from := position.value + |needle|;
      position := FindFrom(lowered, needle, from);
    }
    at := None;
  }

  lemma OccursBounded(text: string, pattern: string, at: nat)
    requires OccursAt(text, pattern, at)
    ensures at + |pattern| <= |text|
  {
  }

  /** What has been rebuilt so far and what the rest will become are the whole pass. */
  predicate ParameterResult(rebuilt: string, rest: string, text: string, needle: string, queryOnly: bool)
    requires IsNeedle(needle)
  {
    rebuilt + Output(ParameterSpans(rest, needle, queryOnly)) == Output(ParameterSpans(text, needle, queryOnly))
  }

  lemma ParameterStep(rebuilt: string, rest: string, text: string, needle: string, queryOnly: bool)
    requires IsNeedle(needle) && ParameterResult(rebuilt, rest, text, needle, queryOnly)
    ensures match ParameterCut(rest, needle, queryOnly)
            case None => rebuilt + rest == Output(ParameterSpans(text, needle, queryOnly))
            case Some((from, to)) =>
              ParameterResult(rebuilt + rest[..from] + MARKER, rest[to..], text, needle, queryOnly)
  {
    hide ParameterCut, IsNeedle;
    var cut := ParameterCut(rest, needle, queryOnly);
    if cut.Some? {
      var later := Output(ParameterSpans(rest[cut.value.1..], needle, queryOnly));
      assert rebuilt + (rest[..cut.value.0] + MARKER + later) == rebuilt + rest[..cut.value.0] + MARKER + later;
    }
  }

  lemma ParameterStart(text: string, needle: string, queryOnly: bool)
    requires IsNeedle(needle)
    ensures ParameterResult("", text, text, needle, queryOnly)
  {
    assert "" + Output(ParameterSpans(text, needle, queryOnly)) == Output(ParameterSpans(text, needle, queryOnly));
  }

  method RedactParameter(text: string, needle: string, queryOnly: bool) returns (rebuilt: string)
    requires IsNeedle(needle)
    ensures rebuilt == Output(ParameterSpans(text, needle, queryOnly))
  {
    hide FindParameterFrom, Lower, IsNeedle, ParameterResult, ParameterSpans, Output, NamesParameter;
    assert |needle| > 0 by { NeedleIsNotEmpty(needle); }
    ParameterStart(text, needle, queryOnly);
    rebuilt := "";
    var rest := text;
    while true
      invariant ParameterResult(rebuilt, rest, text, needle, queryOnly)
      decreases |rest|
    {
      ParameterStep(rebuilt, rest, text, needle, queryOnly);
      var position := FindParameter(rest, needle, queryOnly);
      if position.None? {
        rebuilt := rebuilt + rest;
        return;
      }
      NamesBounded(Lower(rest), needle, position.value, queryOnly);
      var after := position.value + |needle|;
      rebuilt := rebuilt + rest[..after] + MARKER;
      rest := rest[SkipTo(rest, after, EndsParameter)..];
    }
  }

  lemma NeedleIsNotEmpty(needle: string)
    requires IsNeedle(needle)
    ensures |needle| > 0
  {
  }

  lemma NamesBounded(lowered: string, needle: string, at: nat, queryOnly: bool)
    requires NamesParameter(lowered, needle, at, queryOnly)
    ensures at + |needle| <= |lowered|
  {
  }

  method RedactParameters(text: string) returns (result: string)
    ensures result == MaskParameters(text, Needles())
  {
    hide Needles, ParameterSpans, Output, IsNeedle;
    var needles := Needles();
    result := text;
    for i := 0 to |needles|
      invariant result == MaskParameters(text, needles[..i])
    {
      assert needles[..i + 1][..i] == needles[..i];
      result := RedactParameter(result, needles[i].0, needles[i].1);
    }
    assert needles[..|needles|] == needles;
  }

  method SensitiveValueSpan(lowered: string, afterFragment: nat) returns (span: Option<(nat, nat)>)
    requires afterFragment <= |lowered|
    ensures span == ValueSpan(lowered, afterFragment)
  {
    hide SkipTo, EndsKeyName, NotSpace, IsQuote, EndsBareValue, ValueAfter;
    var cursor := Scan(lowered, afterFragment, EndsKeyName);
    if cursor < |lowered| && (lowered[cursor] == '"' || lowered[cursor] == '\'') { cursor := cursor + 1; }
    cursor := Scan(lowered, cursor, NotSpace);
    if cursor >= |lowered| || !(lowered[cursor] == ':' || lowered[cursor] == '=') { return None; }
    span := ValueSpanAfter(lowered, cursor);
  }

  method ValueSpanAfter(lowered: string, separator: nat) returns (span: Option<(nat, nat)>)
    requires separator < |lowered|
    ensures span == ValueAfter(lowered, separator)
  {
    hide SkipTo, EndsKeyName, NotSpace, IsQuote, EndsBareValue;
    var cursor := Scan(lowered, separator + 1, NotSpace);
    var quoted := cursor < |lowered| && lowered[cursor] == '"';
    if quoted { cursor := cursor + 1; }
    var valueStart := cursor;
    cursor := Scan(lowered, cursor, if quoted then IsQuote else EndsBareValue);
    if cursor == valueStart { return None; }
    span := Some((valueStart, cursor));
  }

  /** Advances a cursor to the first character that satisfies a test. */
  method Scan(text: string, from: nat, test: char -> bool) returns (cursor: nat)
    requires from <= |text|
    ensures cursor == SkipTo(text, from, test)
  {
    cursor := from;
    while cursor < |text| && !test(text[cursor])
      invariant from <= cursor <= |text|
      invariant SkipTo(text, cursor, test) == SkipTo(text, from, test)
    {
      cursor := cursor + 1;
    }
  }

  /** What has been pushed so far and what the rest will become are the whole pass. */
  predicate KeyValueResult(result: string, at: nat, text: string) {
    at <= |text| && result + Output(KeyValueSpans(text, at)) == Output(KeyValueSpans(text, 0))
  }

  lemma KeyValueStep(result: string, at: nat, text: string)
    requires KeyValueResult(result, at, text) && at < |text|
    ensures match KeyValueAt(Lower(text), at)
            case Some((from, to)) => KeyValueResult(result + text[at..from] + MARKER, to, text)
            case None => KeyValueResult(result + [text[at]], at + 1, text)
  {
    KeyValueUnfolds(text, at);
    hide KeyValueAt, Lower, KeyValueSpans, Output;
    match KeyValueAt(Lower(text), at)
    case Some((from, to)) =>
      Joined(result, text[at..from], MARKER, Output(KeyValueSpans(text, to)));
    case None =>
      JoinedPair(result, [text[at]], Output(KeyValueSpans(text, at + 1)));
  }

  lemma Joined(a: string, b: string, c: string, d: string)
    ensures a + (b + c + d) == a + b + c + d
  {
  }

  lemma JoinedPair(a: string, b: string, c: string)
    ensures a + (b + c) == a + b + c
  {
  }

  /** One character of the scan: a value removed, or the character kept. */
  lemma KeyValueUnfolds(text: string, at: nat)
    requires at < |text|
    ensures Output(KeyValueSpans(text, at))
            == match KeyValueAt(Lower(text), at)
               case Some((from, to)) => text[at..from] + MARKER + Output(KeyValueSpans(text, to))
               case None => [text[at]] + Output(KeyValueSpans(text, at + 1))
  {
    hide KeyValueAt, Lower;
    if KeyValueAt(Lower(text), at).None? {
      hide KeyValueSpans, Output;
      KeptCharacter(text, at);
    }
  }

  lemma KeptCharacter(text: string, at: nat)
    requires at < |text| && NextKeyValue(Lower(text), at) == NextKeyValue(Lower(text), at + 1)
    ensures Output(KeyValueSpans(text, at)) == [text[at]] + Output(KeyValueSpans(text, at + 1))
  {
    hide NextKeyValue, Lower;
    match NextKeyValue(Lower(text), at)
    case None => assert text[at..] == [text[at]] + text[at + 1..];
    case Some((from, to)) =>
      assert text[at..from] == [text[at]] + text[at + 1..from];
      var later := Output(KeyValueSpans(text, to));
      assert [text[at]] + text[at + 1..from] + MARKER + later == [text[at]] + (text[at + 1..from] + MARKER + later);
  }

  lemma KeyValueBounds(text: string)
    ensures KeyValueResult("", 0, text)
    ensures forall result :: KeyValueResult(result, |text|, text) ==> result == Output(KeyValueSpans(text, 0))
  {
    hide Lower, KeyValueAt;
    assert text[|text|..] == "";
    assert "" + Output(KeyValueSpans(text, 0)) == Output(KeyValueSpans(text, 0));
    assert Output(KeyValueSpans(text, |text|)) == "";
  }

  /** Scans once, left to right, a value or a character at a time. */
  method RedactKeyValues(text: string) returns (result: string)
    ensures result == Output(KeyValueSpans(text, 0))
  {
    hide *;
    KeyValueBounds(text);
    var lowered := Lower(text);
    result := "";
    var index := 0;
    while index < |lowered|
      invariant index <= |lowered| && KeyValueResult(result, index, text)
    {
      KeyValueStep(result, index, text);
      var span := FindKeyValue(lowered, index);
      match span {
        case Some((from, to)) =>
          result := result + text[index..from] + MARKER;
          index := to;
        case None =>
          result := result + [text[index]];
          index := index + 1;
      }
    }
  }

  method FindKeyValue(lowered: string, index: nat) returns (span: Option<(nat, nat)>)
    requires index < |lowered|
    ensures span == KeyValueAt(lowered, index)
  {
    hide ValueSpan, OccursAt, FirstFragment;
    if index > 0 && IsWordChar(lowered[index - 1]) { return None; }
    var fragment := FirstFragment(lowered, index, SENSITIVE_KEY_FRAGMENTS);
    if fragment.None? { return None; }
    OccursBounded(lowered, fragment.value, index);
    span := SensitiveValueSpan(lowered, index + |fragment.value|);
  }

  // ---- The redactor ----

  predicate AllNonEmpty(secrets: seq<string>) { forall i :: 0 <= i < |secrets| ==> secrets[i] != [] }

  /** Secrets are replaced in the set's order, each in what the earlier ones left. */
  function MaskSecrets(text: string, secrets: seq<string>): string
    requires AllNonEmpty(secrets)
  {
    if secrets == [] then text
    else
      var n := |secrets| - 1;
      Output(SecretSpans(MaskSecrets(text, secrets[..n]), secrets[n]))
  }

  /** The passes that know no secrets: userinfo, then parameters, then key-value pairs. */
  function PatternPasses(text: string): string {
    Output(KeyValueSpans(MaskParameters(Output(UserinfoSpans(text)), Needles()), 0))
  }

  function RedactText(secrets: seq<string>, text: string): string
    requires AllNonEmpty(secrets)
  {
    PatternPasses(MaskSecrets(text, secrets))
  }

  lemma {:induction false} SecretMasked(text: string, secrets: seq<string>, secret: string)
    requires AllNonEmpty(secrets)
    requires secret in secrets && NoOverlap(secret)
    ensures !Occurs(secret, MaskSecrets(text, secrets))
    decreases |secrets|
  {
    hide SecretSpans, NoOverlap, Occurs;
    var n := |secrets| - 1;
    var t := MaskSecrets(text, secrets[..n]);
    if secrets[n] == secret {
      ReplacedIsGone(t, secret);
    } else {
      SecretMasked(text, secrets[..n], secret);
      SecretSource(t, secrets[n]);
      MaskingSpellsNothing(SecretSpans(t, secrets[n]), secret);
    }
  }

  lemma {:induction false} ParametersSpellNothing(text: string, needles: seq<(string, bool)>, secret: string)
    requires forall i :: 0 <= i < |needles| ==> IsNeedle(needles[i].0)
    requires NoOverlap(secret) && !Occurs(secret, text)
    ensures !Occurs(secret, MaskParameters(text, needles))
    decreases |needles|
  {
    hide ParameterSpans, NoOverlap, Occurs, IsNeedle;
    if needles != [] {
      var n := |needles| - 1;
      ParametersSpellNothing(text, needles[..n], secret);
      var t := MaskParameters(text, needles[..n]);
      ParameterSource(t, needles[n].0, needles[n].1);
      MaskingSpellsNothing(ParameterSpans(t, needles[n].0, needles[n].1), secret);
    }
  }

  lemma LaterPassesSpellNothing(text: string, secret: string)
    requires NoOverlap(secret) && !Occurs(secret, text)
    ensures !Occurs(secret, Output(KeyValueSpans(MaskParameters(text, Needles()), 0)))
  {
    hide MaskParameters, Needles, KeyValueSpans, NoOverlap, Occurs;
    ParametersSpellNothing(text, Needles(), secret);
    var parameters := MaskParameters(text, Needles());
    KeyValueSource(parameters, 0);
    assert parameters[0..] == parameters;
    MaskingSpellsNothing(KeyValueSpans(parameters, 0), secret);
  }

  /** Nothing the later passes do can bring back a registered secret that cannot overlap the marker. */
  lemma NoSecretSurvives(secrets: seq<string>, text: string, secret: string)
    requires AllNonEmpty(secrets)
    requires secret in secrets && NoOverlap(secret)
    ensures !Occurs(secret, RedactText(secrets, text))
  {
    hide MaskSecrets, UserinfoSpans, MaskParameters, Needles, KeyValueSpans, NoOverlap, Occurs;
    SecretMasked(text, secrets, secret);
    var masked := MaskSecrets(text, secrets);
    UserinfoSource(masked);
    MaskingSpellsNothing(UserinfoSpans(masked), secret);
    LaterPassesSpellNothing(Output(UserinfoSpans(masked)), secret);
  }

  // ---- Which secrets the redactor can promise anything about ----

  lemma {:induction false} AsciiByteLen(s: string)
    requires forall i :: 0 <= i < |s| ==> s[i] as int < 0x80
    ensures ByteLen(s) == |s|
  {
    if s != [] { AsciiByteLen(s[1..]); }
  }

  /** A registered secret without brackets overlaps the marker only if it is the word inside it. */
  lemma BracketFreeExactly(secret: string)
    requires ByteLen(secret) >= 8 && '[' !in secret && ']' !in secret
    ensures NoOverlap(secret) <==> secret != "redacted"
  {
    hide ByteLen, Meets;
    assert forall k :: 0 <= k < |secret| ==> secret[k] in secret;
    if Occurs(secret, MARKER) {
      var at: nat :| at <= |MARKER| && OccursAt(MARKER, secret, at);
      OnlyTheWordFits(secret, at);
    }
    if secret == "redacted" {
      MarkerIsWord();
      OccursIn(secret, MARKER, 1);
    }
    NoBracketNoEnd(secret);
  }

  lemma OnlyTheWordFits(secret: string, at: nat)
    requires ByteLen(secret) >= 8 && OccursAt(MARKER, secret, at)
    requires forall k :: 0 <= k < |secret| ==> secret[k] != '[' && secret[k] != ']'
    ensures secret == "redacted"
  {
    hide ByteLen, OccursAt;
    PieceOfMarker(secret, at);
    AsciiByteLen(secret);
    assert at == 1 && |secret| == 8;
    MarkerIsWord();
  }

  lemma MarkerIsWord()
    ensures MARKER[1..9] == "redacted"
  {
  }

  lemma PieceOfMarker(piece: string, at: nat)
    requires OccursAt(MARKER, piece, at)
    ensures at + |piece| <= 10 && piece == MARKER[at..at + |piece|]
    ensures forall k :: 0 <= k < |piece| ==> piece[k] as int < 0x80
    ensures at == 0 && |piece| > 0 ==> piece[0] == '['
    ensures at + |piece| == 10 && |piece| > 0 ==> piece[|piece| - 1] == ']'
  {
    OccursPointwise(MARKER, piece, at);
    assert forall k :: 0 <= k < 10 ==> MARKER[k] as int < 0x80;
  }

  lemma NoBracketNoEnd(secret: string)
    requires '[' !in secret && ']' !in secret
    ensures !Occurs(MARKER, secret)
    ensures forall j :: 1 <= j <= |MARKER| ==> !Meets(secret, MARKER, j)
  {
    forall at: nat | at <= |secret| ensures !OccursAt(secret, MARKER, at) {
      OccursPointwise(secret, MARKER, at);
      assert MARKER[0] == '[';
    }
    forall j | 1 <= j <= |MARKER| ensures !Meets(secret, MARKER, j) {
      var head, tail := MARKER[..j], MARKER[|MARKER| - j..];
      assert head[0] == '[' && tail[j - 1] == ']';
      assert j <= |secret| ==> secret[|secret| - j..][0] in secret && secret[j - 1] in secret;
    }
  }

  // ---- Text the pattern passes leave alone ----

  predicate Lacks(text: string, c: char) { forall i :: 0 <= i < |text| ==> text[i] != c }

  /** Text without a separator a key could stand before. */
  predicate Quiet(text: string) { Lacks(text, ':') && Lacks(text, '=') }

  predicate HoldsNoNeedle(lowered: string) {
    forall i :: 0 <= i < |Needles()| ==> !Occurs(Needles()[i].0, lowered)
  }

  predicate HoldsNoFragment(lowered: string) {
    forall i :: 0 <= i < |SENSITIVE_KEY_FRAGMENTS| ==> !Occurs(SENSITIVE_KEY_FRAGMENTS[i], lowered)
  }

  /** Text that gives no pattern pass anything to match: no scheme or no `@`, no `name=`, no key or no separator. */
  predicate Harmless(text: string) {
    && (Lacks(text, '@') || !Occurs("://", text))
    && HoldsNoNeedle(Lower(text))
    && (Quiet(text) || HoldsNoFragment(Lower(text)))
  }

  lemma QuietIsHarmless(text: string)
    requires Quiet(text)
    ensures Harmless(text)
  {
    forall at: nat | at <= |text| ensures !OccursAt(text, "://", at) {
      OccursPointwise(text, "://", at);
      assert "://"[0] == ':';
    }
    var lowered := Lower(text);
    forall i | 0 <= i < |Needles()| ensures !Occurs(Needles()[i].0, lowered) { QuietHoldsNoNeedle(text, i); }
  }

  lemma QuietHoldsNoNeedle(text: string, i: nat)
    requires Quiet(text) && i < |Needles()|
    ensures !Occurs(Needles()[i].0, Lower(text))
  {
    var lowered, needle := Lower(text), Needles()[i].0;
    assert IsNeedle(needle);
    hide Needles;
    forall at: nat | at <= |lowered| ensures !OccursAt(lowered, needle, at) { OccursPointwise(lowered, needle, at); }
  }

  lemma {:induction false} NoUserNoUserinfo(text: string)
    requires Lacks(text, '@')
    ensures Output(UserinfoSpans(text)) == text
    decreases |text|
  {
    hide Find, UserinfoEnd, Occurs, OccursAt;
    var found := Find(text, "://");
    if found.Some? {
      var head, after := text[..found.value + 3], text[found.value + 3..];
      assert text == head + after;
      assert forall i :: 0 <= i < |after| ==> after[i] == text[found.value + 3 + i];
      NoUserNoUserinfo(after);
    }
  }

  lemma NoNeedleParameter(text: string, needle: string, queryOnly: bool)
    requires IsNeedle(needle) && !Occurs(needle, Lower(text))
    ensures ParameterSpans(text, needle, queryOnly) == Whole(text)
  {
    var at := FindParameterFrom(Lower(text), needle, 0, queryOnly);
    if at.Some? { OccursIn(needle, Lower(text), at.value); }
  }

  lemma {:induction false} NoNeedleParameters(text: string, needles: seq<(string, bool)>)
    requires forall i :: 0 <= i < |needles| ==> IsNeedle(needles[i].0) && !Occurs(needles[i].0, Lower(text))
    ensures MaskParameters(text, needles) == text
    decreases |needles|
  {
    hide IsNeedle, Occurs, Lower, ParameterSpans;
    if needles != [] {
      var n := |needles| - 1;
      NoNeedleParameters(text, needles[..n]);
      NoNeedleParameter(text, needles[n].0, needles[n].1);
    }
  }

  lemma QuietKey(lowered: string, at: nat)
    requires at < |lowered| && Quiet(lowered)
    ensures KeyValueAt(lowered, at).None?
  {
    hide SkipTo, OccursAt, ValueAfter;
    var fragment := FirstFragment(lowered, at, SENSITIVE_KEY_FRAGMENTS);
    if fragment.Some? {
      OccursBounded(lowered, fragment.value, at);
      var separator := SeparatorAfter(lowered, at + |fragment.value|);
    }
  }

  lemma {:induction false} NoFragmentStarts(lowered: string, at: nat, fragments: seq<string>)
    requires at <= |lowered| && forall i :: 0 <= i < |fragments| ==> !Occurs(fragments[i], lowered)
    ensures FirstFragment(lowered, at, fragments).None?
  {
    if fragments != [] {
      assert !Occurs(fragments[0], lowered);
      NoFragmentStarts(lowered, at, fragments[1..]);
    }
  }

  lemma NoFragmentKey(lowered: string, at: nat)
    requires at < |lowered| && HoldsNoFragment(lowered)
    ensures KeyValueAt(lowered, at).None?
  {
    hide Occurs, FirstFragment;
    NoFragmentStarts(lowered, at, SENSITIVE_KEY_FRAGMENTS);
  }

  lemma {:induction false} NoKeys(lowered: string, at: nat)
    requires at <= |lowered| && (Quiet(lowered) || HoldsNoFragment(lowered))
    ensures NextKeyValue(lowered, at).None?
    decreases |lowered| - at
  {
    hide KeyValueAt, Quiet, HoldsNoFragment;
    if at < |lowered| {
      if Quiet(lowered) { QuietKey(lowered, at); } else { NoFragmentKey(lowered, at); }
      NoKeys(lowered, at + 1);
    }
  }

  lemma LowerKeepsQuiet(text: string)
    requires Quiet(text)
    ensures Quiet(Lower(text))
  {
  }

  lemma HarmlessUserinfo(text: string)
    requires Lacks(text, '@') || !Occurs("://", text)
    ensures Output(UserinfoSpans(text)) == text
  {
    hide Occurs;
    if Lacks(text, '@') { NoUserNoUserinfo(text); }
  }

  lemma HarmlessPasses(text: string)
    requires Harmless(text)
    ensures PatternPasses(text) == text
  {
    hide MaskParameters, UserinfoSpans, Needles, Lower, Occurs, Lacks, HoldsNoFragment, NextKeyValue;
    HarmlessUserinfo(text);
    NoNeedleParameters(text, Needles());
    if Quiet(text) { LowerKeepsQuiet(text); }
    hide Quiet;
    NoKeys(Lower(text), 0);
  }

  /** What a redactor can hold: an ordered set of texts of at least eight bytes. */
  ghost predicate Registered(secrets: seq<string>) {
    Sorting.StrictlyAscending(secrets, Less) && forall i :: 0 <= i < |secrets| ==> ByteLen(secrets[i]) >= 8
  }

  lemma RegisteredNonEmpty(secrets: seq<string>)
    requires Registered(secrets)
    ensures AllNonEmpty(secrets)
  {
    assert ByteLen([]) == 0;
  }

  /** No text still holds the secret after redaction, whatever else is registered. */
  ghost predicate AlwaysGone(secret: string) {
    forall secrets: seq<string>, text: string :: AllNonEmpty(secrets) && Registered(secrets) && secret in secrets ==>
      !Occurs(secret, RedactText(secrets, text))
  }

  /**
   * Exactly which registered secrets redaction removes from every text, whatever else is registered:
   * those that cannot overlap the marker. This holds of every secret without a bracket, and of every
   * bracketed one that gives the pattern passes nothing to match.
   */
  lemma GoneExactly(secret: string)
    requires ByteLen(secret) >= 8
    requires Harmless(secret) || ('[' !in secret && ']' !in secret)
    ensures AlwaysGone(secret) <==> NoOverlap(secret)
  {
    hide AlwaysGone, NoOverlap, ByteLen, Harmless;
    if NoOverlap(secret) {
      ClearIsAlwaysGone(secret);
    } else {
      if !Harmless(secret) {
        BracketFreeExactly(secret);
        TheWordIsHarmless();
      }
      OverlapStays(secret);
    }
  }

  lemma TheWordIsHarmless()
    ensures Harmless("redacted")
  {
    hide Harmless;
    assert Quiet("redacted");
    QuietIsHarmless("redacted");
  }

  /**
   * Of the registered secrets that hold no bracket, exactly one can survive: the word inside the
   * marker. Every other is gone from every text, whatever else is registered.
   */
  lemma OnlyTheMarkerWordSurvives(secret: string)
    requires ByteLen(secret) >= 8 && '[' !in secret && ']' !in secret
    ensures AlwaysGone(secret) <==> secret != "redacted"
  {
    hide AlwaysGone, NoOverlap, ByteLen, Harmless;
    GoneExactly(secret);
    BracketFreeExactly(secret);
  }

  /** One direction holds of every secret: what cannot overlap the marker is always gone. */
  lemma ClearIsAlwaysGone(secret: string)
    requires NoOverlap(secret)
    ensures AlwaysGone(secret)
  {
    hide RedactText, Occurs, NoOverlap, AllNonEmpty, Registered;
    forall secrets: seq<string>, text: string | AllNonEmpty(secrets) && Registered(secrets) && secret in secrets
      ensures !Occurs(secret, RedactText(secrets, text))
    {
      NoSecretSurvives(secrets, text, secret);
    }
  }

  // ---- A secret that overlaps the marker can be spelled again ----

  /** The secret is some text, a piece of the mark, and more text, where only the mark's ends meet the text. */
  predicate Straddles(secret: string, mark: string, before: string, from: nat, to: nat, after: string) {
    && from < to <= |mark| && secret == before + mark[from..to] + after
    && (before == [] || from == 0) && (after == [] || to == |mark|)
  }

  lemma OverlapSplits(secret: string, mark: string) returns (before: string, from: nat, to: nat, after: string)
    requires secret != [] && mark != [] && !Clear(secret, mark)
    ensures Straddles(secret, mark, before, from, to, after)
  {
    before, from, to, after := [], 0, 0, [];
    if Occurs(secret, mark) {
      from :| from <= |mark| && OccursAt(mark, secret, from);
      to := from + |secret|;
      assert secret == [] + mark[from..to] + [];
    } else if Occurs(mark, secret) {
      var at: nat :| at <= |secret| && OccursAt(secret, mark, at);
      before, to, after := secret[..at], |mark|, secret[at + |mark|..];
      assert mark[0..|mark|] == mark && secret == before + mark + after;
    } else {
      hide Occurs;
      var j :| 1 <= j <= |mark| && Meets(secret, mark, j);
      if EndsWith(secret, mark[..j]) {
        before, to := secret[..|secret| - j], j;
        assert mark[0..j] == mark[..j] && secret == before + mark[..j] + [];
      } else {
        from, to, after := |mark| - j, |mark|, secret[j..];
        assert mark[from..|mark|] == mark[from..] && secret == [] + mark[from..] + after;
      }
    }
  }

  /** Put back between its own texts, the whole mark spells the secret. */
  lemma StraddleSpells(secret: string, mark: string, before: string, from: nat, to: nat, after: string)
    requires Straddles(secret, mark, before, from, to, after)
    ensures Occurs(secret, before + mark + after)
  {
    var whole := before + mark + after;
    OccursPointwise(whole, secret, from);
    OccursIn(secret, whole, from);
  }

  const LAST: char := '\U{10FFFF}'

  /** Text that sorts after every text with another character in it. */
  function Filler(n: nat): (filler: string)
    ensures |filler| == n && forall k :: 0 <= k < n ==> filler[k] == LAST
  {
    if n == 0 then [] else [LAST] + Filler(n - 1)
  }

  lemma {:induction false} FillerSortsLast(s: string, n: nat, tail: string, k: nat)
    requires k < |s| <= n && s[k] != LAST
    ensures Less(s, Filler(n) + tail)
  {
    var filler := Filler(n) + tail;
    assert filler[0] == LAST && filler[1..] == Filler(n - 1) + tail;
    assert s[0] <= LAST;
    if s[0] == LAST { FillerSortsLast(s[1..], n - 1, tail, k - 1); }
  }

  lemma {:induction false} ByteLenAtLeast(s: string)
    ensures ByteLen(s) >= |s|
  {
    hide Encode;
    if s != [] { ByteLenAtLeast(s[1..]); }
  }

  /** A second secret, longer than the first and sorting after it, which ends in a character of its own. */
  function Second(secret: string): (second: string)
    ensures |second| == |secret| + 9
  {
    Filler(|secret| + 8) + "x"
  }

  lemma MarkerCharacters()
    ensures |MARKER| == 10 && forall k :: 0 <= k < |MARKER| ==> MARKER[k] != LAST && MARKER[k] != 'x'
  {
  }

  /** Between the two texts, the second secret neither completes the first nor occurs twice. */
  lemma WitnessText(secret: string, mark: string, before: string, from: nat, to: nat, after: string)
    requires Straddles(secret, mark, before, from, to, after)
    requires forall k :: 0 <= k < |mark| ==> mark[k] != LAST && mark[k] != 'x'
    ensures var text := before + Second(secret) + after;
            !Occurs(secret, text) && !Occurs(Second(secret), after)
            && forall k: nat :: k < |before| ==> !OccursAt(text, Second(secret), k)
  {
    var second := Second(secret);
    var text, n := before + second + after, |secret| + 8;
    assert secret[|before|] == mark[from];
    assert text[|before| + n] == 'x';
    assert forall i :: |before| <= i < |before| + n ==> text[i] == second[i - |before|] == LAST;
    forall at: nat | at <= |text| ensures !OccursAt(text, secret, at) {
      OccursPointwise(text, secret, at);
    }
    forall k: nat | k < |before| ensures !OccursAt(text, second, k) {
      OccursPointwise(text, second, k);
      assert second[n] == 'x' && text[k + n] == LAST;
    }
  }

  /** A secret that occurs once in a text is replaced there. */
  lemma ReplacedOnce(before: string, secret: string, after: string)
    requires secret != [] && !Occurs(secret, after)
    requires forall k: nat :: k < |before| ==> !OccursAt(before + secret + after, secret, k)
    ensures Output(SecretSpans(before + secret + after, secret)) == before + MARKER + after
  {
    var text := before + secret + after;
    assert text[|before|..|before| + |secret|] == secret;
    OccursIn(secret, text, |before|);
    assert Find(text, secret) == Some(|before|);
    assert text[|before| + |secret|..] == after && text[..|before|] == before;
    NothingMasked(after, secret);
    hide Occurs, OccursAt, Find;
    assert SecretSpans(text, secret) == Masked(before, secret, SecretSpans(after, secret));
  }

  lemma NothingMasked(text: string, secret: string)
    requires secret != [] && !Occurs(secret, text)
    ensures SecretSpans(text, secret) == Whole(text)
  {
  }

  lemma MaskBoth(text: string, first: string, second: string)
    requires first != [] && second != [] && !Occurs(first, text)
    ensures AllNonEmpty([first, second])
    ensures MaskSecrets(text, [first, second]) == Output(SecretSpans(text, second))
  {
    var one, both := [first], [first, second];
    assert one[..0] == [] && both[..1] == one;
    NothingMasked(text, first);
    assert MaskSecrets(text, one) == text;
  }

  lemma WitnessRegistered(secret: string, k: nat)
    requires ByteLen(secret) >= 8 && k < |secret| && secret[k] != LAST
    ensures Registered([secret, Second(secret)])
  {
    hide ByteLen, Less;
    ByteLenAtLeast(Second(secret));
    FillerSortsLast(secret, |secret| + 8, "x", k);
  }

  /** Whenever the later passes leave a secret spelled by the marker and its own rest, it can survive. */
  lemma SpelledStays(secret: string, before: string, from: nat, to: nat, after: string)
    requires ByteLen(secret) >= 8 && Straddles(secret, MARKER, before, from, to, after)
    requires Occurs(secret, PatternPasses(before + MARKER + after))
    ensures !AlwaysGone(secret)
  {
    MarkerCharacters();
    hide ByteLen, PatternPasses, Occurs, OccursAt;
    var second := Second(secret);
    var secrets, text := [secret, second], before + second + after;
    WitnessText(secret, MARKER, before, from, to, after);
    ReplacedOnce(before, second, after);
    assert secret[|before|] == MARKER[from];
    hide Straddles, Second;
    WitnessRegistered(secret, |before|);
    hide Registered;
    MaskBoth(text, secret, second);
    assert RedactText(secrets, text) == PatternPasses(before + MARKER + after);
    assert secret in secrets;
  }

  lemma OverlapStays(secret: string)
    requires ByteLen(secret) >= 8 && Harmless(secret) && !NoOverlap(secret)
    ensures !AlwaysGone(secret)
  {
    assert ByteLen([]) == 0;
    hide ByteLen, AlwaysGone, Clear, Straddles, Harmless;
    var before, from, to, after := OverlapSplits(secret, MARKER);
    StraddleSpells(secret, MARKER, before, from, to, after);
    HarmlessParts(secret, before, from, to, after);
    HarmlessPasses(before + MARKER + after);
    SpelledStays(secret, before, from, to, after);
  }

  /** Completing the marker inside a harmless secret gives the pattern passes nothing to match either. */
  lemma HarmlessParts(secret: string, before: string, from: nat, to: nat, after: string)
    requires Harmless(secret) && Straddles(secret, MARKER, before, from, to, after)
    ensures Harmless(before + MARKER + after)
  {
    MarkerLacks();
    hide Straddles, HoldsNoNeedle, HoldsNoFragment, Lacks, Occurs, Lower;
    if Lacks(secret, '@') {
      StaysLacking('@', secret, MARKER, before, from, to, after);
    } else {
      SchemeIsClear();
      WordStaysAbsent("://", secret, MARKER, before, from, to, after);
    }
    NoNeedleParts(secret, before, from, to, after);
    if Quiet(secret) {
      StaysLacking(':', secret, MARKER, before, from, to, after);
      StaysLacking('=', secret, MARKER, before, from, to, after);
    } else {
      NoFragmentParts(secret, before, from, to, after);
    }
  }

  lemma StaysLacking(c: char, secret: string, mark: string, before: string, from: nat, to: nat, after: string)
    requires Lacks(mark, c) && Lacks(secret, c) && Straddles(secret, mark, before, from, to, after)
    ensures Lacks(before + mark + after, c)
  {
    assert forall i :: 0 <= i < |before| ==> secret[i] == before[i];
    var n := |before| + to - from;
    assert forall i :: 0 <= i < |after| ==> secret[n + i] == after[i];
  }

  lemma MarkerLacks()
    ensures Lacks(MARKER, ':') && Lacks(MARKER, '=') && Lacks(MARKER, '@')
  {
  }

  lemma WordStaysAbsent(word: string, secret: string, mark: string, before: string, from: nat, to: nat, after: string)
    requires Clear(word, mark) && !Occurs(word, secret) && Straddles(secret, mark, before, from, to, after)
    ensures !Occurs(word, before + mark + after)
  {
    var piece := mark[from..to];
    assert secret == "" + before + (piece + after) == before + piece + after + "";
    hide Clear, Occurs;
    AbsentFromPart(word, "", before, piece + after);
    AbsentFromPart(word, before + piece, after, "");
    if Occurs(word, before + mark + after) { OccursAround(word, before, mark, after); }
  }

  predicate IsMarkerCharacter(c: char) {
    c == '[' || c == 'r' || c == 'e' || c == 'd' || c == 'a' || c == 'c' || c == 't' || c == ']'
  }

  /** A word without brackets that holds a character the marker does not. */
  predicate Foreign(word: string, k: nat) {
    && k < |word| && !IsMarkerCharacter(word[k])
    && forall i :: 0 <= i < |word| ==> word[i] != '[' && word[i] != ']'
  }

  lemma ForeignIsClear(word: string, k: nat)
    requires Foreign(word, k)
    ensures Clear(word, MARKER)
  {
    NoBracketNoEnd(word);
    assert forall i :: 0 <= i < |MARKER| ==> IsMarkerCharacter(MARKER[i]);
    hide IsMarkerCharacter;
    forall at: nat | at <= |MARKER| ensures !OccursAt(MARKER, word, at) {
      OccursPointwise(MARKER, word, at);
      assert at + |word| <= |MARKER| ==> MARKER[at + k] != word[k];
    }
  }

  lemma SchemeIsClear()
    ensures Clear("://", MARKER)
  {
    hide Clear;
    ForeignIsClear("://", 0);
  }

  lemma NeedleIsForeign(i: nat)
    requires i < |Needles()|
    ensures Foreign(Needles()[i].0, |Needles()[i].0| - 1)
  {
  }

  /** For each key fragment, where it holds a character the marker does not. */
  const FOREIGN_AT: seq<nat> := [1, 1, 1, 0, 0, 0, 0, 5, 1, 1, 2, 0, 1, 0]

  lemma FragmentIsForeign(i: nat)
    requires i < |SENSITIVE_KEY_FRAGMENTS|
    ensures Foreign(SENSITIVE_KEY_FRAGMENTS[i], FOREIGN_AT[i])
  {
    FragmentHoldsNoBracket(i);
  }

  lemma FragmentHoldsNoBracket(i: nat)
    requires i < |SENSITIVE_KEY_FRAGMENTS|
    ensures var word := SENSITIVE_KEY_FRAGMENTS[i]; forall k :: 0 <= k < |word| ==> word[k] != '[' && word[k] != ']'
  {
  }

  lemma LowerStraddles(secret: string, mark: string, before: string, from: nat, to: nat, after: string)
    requires Straddles(secret, mark, before, from, to, after) && Lower(mark) == mark
    ensures Straddles(Lower(secret), mark, Lower(before), from, to, Lower(after))
    ensures Lower(before + mark + after) == Lower(before) + mark + Lower(after)
  {
    assert Lower(secret) == Lower(before) + Lower(mark)[from..to] + Lower(after);
  }

  lemma MarkerIsLower()
    ensures Lower(MARKER) == MARKER
  {
  }

  lemma NoNeedleParts(secret: string, before: string, from: nat, to: nat, after: string)
    requires HoldsNoNeedle(Lower(secret)) && Straddles(secret, MARKER, before, from, to, after)
    ensures HoldsNoNeedle(Lower(before + MARKER + after))
  {
    MarkerIsLower();
    LowerStraddles(secret, MARKER, before, from, to, after);
    var whole := Lower(before + MARKER + after);
    hide Straddles, Lower, Occurs, Clear, Foreign, Needles;
    forall i | 0 <= i < |Needles()| ensures !Occurs(Needles()[i].0, whole) {
      var needle := Needles()[i].0;
      NeedleIsForeign(i);
      ForeignIsClear(needle, |needle| - 1);
      WordStaysAbsent(needle, Lower(secret), MARKER, Lower(before), from, to, Lower(after));
    }
  }

  lemma NoFragmentParts(secret: string, before: string, from: nat, to: nat, after: string)
    requires HoldsNoFragment(Lower(secret)) && Straddles(secret, MARKER, before, from, to, after)
    ensures HoldsNoFragment(Lower(before + MARKER + after))
  {
    MarkerIsLower();
    LowerStraddles(secret, MARKER, before, from, to, after);
    var whole := Lower(before + MARKER + after);
    hide Straddles, Lower, Occurs, Clear, Foreign;
    forall i | 0 <= i < |SENSITIVE_KEY_FRAGMENTS| ensures !Occurs(SENSITIVE_KEY_FRAGMENTS[i], whole) {
      FragmentIsForeign(i);
      ForeignIsClear(SENSITIVE_KEY_FRAGMENTS[i], FOREIGN_AT[i]);
      WordStaysAbsent(SENSITIVE_KEY_FRAGMENTS[i], Lower(secret), MARKER, Lower(before), from, to, Lower(after));
    }
  }

  // ---- Outside that reach a secret may overlap the marker and still be gone ----

  /** A secret that holds a whole userinfo clear of the marker is always gone: the pass leaves none behind. */
  lemma UserinfoSecretIsGone(secret: string, k: nat, end: nat)
    requires k + 3 <= |secret| && OccursAt(secret, "://", k) && UserinfoEnd(secret[k + 3..]) == Some(end)
    requires NoOverlap(secret[k..k + 4 + end])
    ensures AlwaysGone(secret)
  {
    hide RedactText, Occurs, OccursAt, NoOverlap, UserinfoEnd, AllNonEmpty, Registered;
    forall secrets: seq<string>, text: string | AllNonEmpty(secrets) && Registered(secrets) && secret in secrets
      ensures !Occurs(secret, RedactText(secrets, text))
    {
      UserinfoSecretGoneFrom(secrets, text, secret, k, end);
    }
  }

  lemma UserinfoSecretGoneFrom(secrets: seq<string>, text: string, secret: string, k: nat, end: nat)
    requires AllNonEmpty(secrets)
    requires k + 3 <= |secret| && OccursAt(secret, "://", k) && UserinfoEnd(secret[k + 3..]) == Some(end)
    requires NoOverlap(secret[k..k + 4 + end])
    ensures !Occurs(secret, RedactText(secrets, text))
  {
    RedactTextIs(secrets, text);
    hide *;
    var masked := MaskSecrets(text, secrets);
    var out := Output(UserinfoSpans(masked));
    UserinfoPartIsGone(out, masked, secret, k, end);
    PartStaysGone(out, secret, k, k + 4 + end);
  }

  lemma PartStaysGone(text: string, secret: string, from: nat, to: nat)
    requires from <= to <= |secret| && NoOverlap(secret[from..to]) && !Occurs(secret[from..to], text)
    ensures !Occurs(secret, Output(KeyValueSpans(MaskParameters(text, Needles()), 0)))
  {
    hide *;
    LaterPassesSpellNothing(text, secret[from..to]);
    var later := Output(KeyValueSpans(MaskParameters(text, Needles()), 0));
    if Occurs(secret, later) { OccursInside(later, secret, from, to); }
  }

  lemma OccursInside(text: string, pattern: string, from: nat, to: nat)
    requires from <= to <= |pattern| && Occurs(pattern, text)
    ensures Occurs(pattern[from..to], text)
  {
    var at: nat :| at <= |text| && OccursAt(text, pattern, at);
    OccursPointwise(text, pattern, at);
    OccursPointwise(text, pattern[from..to], at + from);
    OccursIn(pattern[from..to], text, at + from);
  }

  lemma UserinfoPartIsGone(out: string, masked: string, secret: string, k: nat, end: nat)
    requires out == Output(UserinfoSpans(masked))
    requires k + 3 <= |secret| && OccursAt(secret, "://", k) && UserinfoEnd(secret[k + 3..]) == Some(end)
    ensures !Occurs(secret[k..k + 4 + end], out)
  {
    UserinfoIsGone(masked);
    var part := secret[k..k + 4 + end];
    hide UserinfoSpans, Output, UserinfoEnd, OccursAt;
    forall at: nat | at <= |out| ensures !OccursAt(out, part, at) {
      if OccursAt(out, part, at) { UserinfoCopied(out, secret, k, end, at); }
    }
  }

  /** Wherever the userinfo of a text is copied to, it is userinfo there. */
  lemma UserinfoCopied(out: string, secret: string, k: nat, end: nat, at: nat)
    requires k + 3 <= |secret| && OccursAt(secret, "://", k) && UserinfoEnd(secret[k + 3..]) == Some(end)
    requires OccursAt(out, secret[k..k + 4 + end], at)
    ensures at + 3 <= |out| && OccursAt(out, "://", at) && UserinfoEnd(out[at + 3..]) == Some(end)
  {
    hide UserinfoEnd;
    var part := secret[k..k + 4 + end];
    OccursPointwise(secret, "://", k);
    OccursPointwise(out, part, at);
    OccursPointwise(out, "://", at);
    assert forall i :: 0 <= i < 3 ==> out[at + i] == part[i] == secret[k + i] == "://"[i];
    hide OccursAt;
    var rest, tail := secret[k + 3..], out[at + 3..];
    assert forall i :: 0 <= i <= end ==> tail[i] == part[3 + i] == rest[i];
    UserinfoShared(rest, tail, end);
  }

  lemma UserinfoShared(a: string, b: string, end: nat)
    requires UserinfoEnd(a) == Some(end) && end < |b| && forall i :: 0 <= i <= end ==> b[i] == a[i]
    ensures UserinfoEnd(b) == Some(end)
  {
    var m, n := SkipTo(a, 0, EndsUserinfo), SkipTo(b, 0, EndsUserinfo);
    var x, y := a[..m], b[..n];
    assert end < m && end < n;
    assert x[..end] == y[..end];
    assert forall i :: 0 <= i <= end ==> x[i] == y[i];
    var at := SkipTo(y, 0, c => c == '@');
    assert SkipTo(x, 0, c => c == '@') == end;
    assert at == end;
  }

  /** A secret with a bracket and a colon: it overlaps the marker, and yet no text keeps it. */
  lemma OverlapMayStillBeGone()
    ensures var secret := "d]://a:b@";
            ByteLen(secret) >= 8 && !NoOverlap(secret) && !Harmless(secret) && AlwaysGone(secret)
  {
    var secret := "d]://a:b@";
    AsciiByteLen(secret);
    EndOfMarkerLeads(secret);
    UserinfoExample();
    OccursIn("://", secret, 2);
    assert secret[8] == '@';
    hide ByteLen, AlwaysGone, NoOverlap, Harmless, OccursAt, UserinfoEnd;
    UserinfoSecretIsGone(secret, 2, 3);
  }

  lemma EndOfMarkerLeads(secret: string)
    requires |secret| >= 2 && secret[0] == 'd' && secret[1] == ']'
    ensures !NoOverlap(secret)
  {
    hide Occurs;
    assert MARKER[8..] == secret[..2];
    assert Meets(secret, MARKER, 2);
  }

  lemma UserinfoExample()
    ensures var secret := "d]://a:b@";
            OccursAt(secret, "://", 2) && UserinfoEnd(secret[5..]) == Some(3) && NoOverlap(secret[2..9])
  {
    var secret := "d]://a:b@";
    assert secret[2..9] == "://a:b@" && secret[5..] == "a:b@" && secret[2..5] == "://";
    hide NoOverlap, UserinfoEnd;
    PartIsClear();
    PartIsUserinfo();
  }

  lemma PartIsClear()
    ensures NoOverlap("://a:b@")
  {
    NoBracketNoEnd("://a:b@");
    forall at: nat | at <= |MARKER| ensures !OccursAt(MARKER, "://a:b@", at) {
      OccursPointwise(MARKER, "://a:b@", at);
      assert "://a:b@"[0] == ':';
    }
  }

  lemma PartIsUserinfo()
    ensures UserinfoEnd("a:b@") == Some(3)
  {
    var after := "a:b@";
    assert SkipTo(after, 0, EndsUserinfo) == 4;
    assert after[..4] == after;
    assert SkipTo(after, 0, c => c == '@') == 3;
    assert after[..3][1] == ':';
  }

  /** A secret with a bracket can be spelled by a marker put beside kept text, when its own turn has passed. */
  lemma BracketedSecretMayBeSpelled()
    ensures ByteLen("a[redacted]") >= 8 && !NoOverlap("a[redacted]") && !AlwaysGone("a[redacted]")
  {
    BracketExample();
    hide ByteLen, AlwaysGone, NoOverlap, Harmless;
    MarkerWithin("a[redacted]");
    OverlapStays("a[redacted]");
  }

  lemma BracketExample()
    ensures ByteLen("a[redacted]") >= 8 && Harmless("a[redacted]")
    ensures |"a[redacted]"| == 11 && "a[redacted]"[1..11] == MARKER
  {
    hide ByteLen, Harmless;
    AsciiByteLen("a[redacted]");
    assert Quiet("a[redacted]");
    QuietIsHarmless("a[redacted]");
  }

  lemma MarkerWithin(secret: string)
    requires |secret| == 11 && secret[1..11] == MARKER
    ensures !NoOverlap(secret)
  {
    hide Meets;
    OccursIn(MARKER, secret, 1);
  }

  // ---- The redactor as core holds it ----

  class Redactor {
    var knownSecrets: seq<string>

    /** An ordered set of texts of at least eight bytes. */
    ghost predicate Valid()
      reads this
    {
      Registered(knownSecrets)
    }

    constructor ()
      ensures Valid() && knownSecrets == []
    {
      knownSecrets := [];
    }

    /** Registers an exact secret; short values are ignored. */
    method RegisterSecret(secret: string)
      requires Valid()
      modifies this
      ensures Valid()
      ensures forall s :: s in knownSecrets <==> s in old(knownSecrets) || (s == secret && ByteLen(secret) >= 8)
    {
      hide ByteLen, Less;
      if ByteLen(secret) < 8 { return; }
      TextOrder();
      var grown := knownSecrets + [secret];
      Sorting.SortSorts(grown, Less);
      Sorting.DedupStrict(Sorting.Sort(grown, Less), Less);
      knownSecrets := Sorting.Dedup(Sorting.Sort(grown, Less));
      forall i | 0 <= i < |knownSecrets| ensures ByteLen(knownSecrets[i]) >= 8 {
        assert knownSecrets[i] in grown;
      }
    }

    /** Redacts one string; no registered secret that cannot overlap the marker is left in it. */
    method RedactOne(text: string) returns (result: string)
      requires Valid()
      ensures AllNonEmpty(knownSecrets)
      ensures result == RedactText(knownSecrets, text)
      ensures forall s :: s in knownSecrets && NoOverlap(s) ==> !Occurs(s, result)
    {
      hide SecretSpans, UserinfoSpans, MaskParameters, Needles, KeyValueSpans, Output, Occurs, NoOverlap;
      hide Less, RedactText;
      RegisteredNonEmpty(knownSecrets);
      hide ByteLen, Registered;
      result := text;
      for i := 0 to |knownSecrets|
        invariant result == MaskSecrets(text, knownSecrets[..i])
      {
        assert knownSecrets[..i + 1][..i] == knownSecrets[..i];
        NothingToReplace(result, knownSecrets[i]);
        if Occurs(knownSecrets[i], result) { result := Output(SecretSpans(result, knownSecrets[i])); }
      }
      assert knownSecrets[..|knownSecrets|] == knownSecrets;
      result := RedactUrlUserinfo(result);
      result := RedactParameters(result);
      result := RedactKeyValues(result);
      RedactTextIs(knownSecrets, text);
      forall s | s in knownSecrets && NoOverlap(s) ensures !Occurs(s, result) {
        NoSecretSurvives(knownSecrets, text, s);
      }
    }

    /** Looks for any secret the redactor holds. */
    method Leaks(text: string) returns (leaks: bool)
      ensures leaks <==> exists s :: s in knownSecrets && Occurs(s, text)
    {
      for i := 0 to |knownSecrets|
        invariant forall j :: 0 <= j < i ==> !Occurs(knownSecrets[j], text)
      {
        if Occurs(knownSecrets[i], text) { return true; }
      }
      leaks := false;
    }
  }

  lemma NothingToReplace(text: string, secret: string)
    requires secret != []
    ensures !Occurs(secret, text) ==> Output(SecretSpans(text, secret)) == text
  {
  }

  lemma RedactTextIs(secrets: seq<string>, text: string)
    requires AllNonEmpty(secrets)
    ensures RedactText(secrets, text)
         == Output(KeyValueSpans(MaskParameters(Output(UserinfoSpans(MaskSecrets(text, secrets))), Needles()), 0))
  {
  }
}
