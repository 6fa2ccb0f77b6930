/**
 * Lines cut from a chunked byte stream under a hard ceiling: the scan holds no more than the ceiling
 * allows, and what it returns depends on the bytes alone, never on how they were chunked.
 */
module Lines {
  import opened Wrappers
  import opened Codes
  import opened Utf8

  const LF: Byte := 10

  // ---- The chunked source ----

  /** One answer of the buffered source: bytes to look at, or an interrupted call to retry. */
  datatype Fill = Data(bytes: Bytes) | Interrupted

  /** An empty buffer means the end of the stream, so chunks before it are not empty. */
  predicate WellFilled(fills: seq<Fill>) {
    forall i :: 0 <= i < |fills| && fills[i].Data? ==> fills[i].bytes != []
  }

  function Content(fills: seq<Fill>): Bytes {
    if fills == [] then [] else (if fills[0].Data? then fills[0].bytes else []) + Content(fills[1..])
  }

  function Consume(fills: seq<Fill>, n: nat): (rest: seq<Fill>)
    requires fills != [] && fills[0].Data? && n <= |fills[0].bytes|
    requires WellFilled(fills)
    ensures WellFilled(rest)
  {
    var bytes := fills[0].bytes;
    if n == |bytes| then fills[1..] else [Data(bytes[n..])] + fills[1..]
  }

  lemma ConsumeContent(fills: seq<Fill>, n: nat)
    requires fills != [] && fills[0].Data? && n <= |fills[0].bytes| && WellFilled(fills)
    ensures Content(fills) == fills[0].bytes[..n] + Content(Consume(fills, n))
  {
    var bytes := fills[0].bytes;
    assert bytes == bytes[..n] + bytes[n..];
    if n < |bytes| {
      assert ([Data(bytes[n..])] + fills[1..])[1..] == fills[1..];
      assert bytes[..n] + bytes[n..] + Content(fills[1..]) == bytes[..n] + (bytes[n..] + Content(fills[1..]));
    }
  }

  // ---- One line ----

  datatype Line = FullLine(bytes: Bytes) | NoLine | BadLine(code: RejectionCode)

  function Min(a: nat, b: nat): nat { if a < b then a else b }

  predicate HasLF(bytes: Bytes) { LF in bytes }

  function FirstLF(window: Bytes): (at: Option<nat>)
    ensures at.None? ==> !HasLF(window)
    ensures at.Some? ==> at.value < |window| && window[at.value] == LF && !HasLF(window[..at.value])
  {
    if window == [] then None
    else if window[0] == LF then Some(0)
    else
      match FirstLF(window[1..])
      case None => None
      case Some(i) => assert window[..i + 1] == [window[0]] + window[1..][..i]; Some(i + 1)
  }

  /** The scan over chunks, holding at most `max` bytes: the line or error, and what is left unread. */
  function ReadLine(fills: seq<Fill>, readFails: bool, max: nat, line: Bytes): (Line, seq<Fill>)
    requires WellFilled(fills) && |line| <= max
    decreases |fills|
  {
    if fills == [] then (if readFails || line != [] then BadLine(ProtocolTruncatedFrame) else NoLine, [])
    else
      match fills[0]
      case Interrupted => ReadLine(fills[1..], readFails, max, line)
      case Data(available) =>
        var horizon := Min(|available|, max - |line| + 1);
        var window := available[..horizon];
        match FirstLF(window)
        case Some(i) =>
          if |line| + i + 1 > max then (BadLine(ProtocolOversizedFrame), fills)
          else (FullLine(line + window[..i + 1]), Consume(fills, i + 1))
        case None =>
          if |line| + horizon > max then (BadLine(ProtocolOversizedFrame), fills)
          else ReadLine(Consume(fills, horizon), readFails, max, line + window)
  }

  /** What a line is, from the bytes of the stream alone. */
  function LineOf(content: Bytes, readFails: bool, max: nat): (l: Line)
    ensures l.FullLine? ==> 0 < |l.bytes| <= max && l.bytes <= content && FirstLF(l.bytes) == Some(|l.bytes| - 1)
    ensures l.BadLine? ==> l.code == ProtocolOversizedFrame || l.code == ProtocolTruncatedFrame
  {
    hide FirstLF, HasLF;
    var head := content[..Min(|content|, max)];
    if FirstLF(head).Some? then
      FirstLFEnds(head);
      assert head[..FirstLF(head).value + 1] == content[..FirstLF(head).value + 1];
      FullLine(content[..FirstLF(head).value + 1])
    else if |content| > max then BadLine(ProtocolOversizedFrame)
    else if readFails || content != [] then BadLine(ProtocolTruncatedFrame)
    else NoLine
  }

  lemma FirstLFEnds(window: Bytes)
    requires FirstLF(window).Some?
    ensures FirstLF(window[..FirstLF(window).value + 1]) == FirstLF(window)
  {
    var i := FirstLF(window).value;
    assert window[..i + 1][..i] == window[..i];
    FirstLFUnique(window[..i + 1], i);
  }

  lemma FirstLFUnique(window: Bytes, i: nat)
    requires i < |window| && window[i] == LF && !HasLF(window[..i])
    ensures FirstLF(window) == Some(i)
  {
    NoLFBefore(window, i);
    if FirstLF(window).Some? { NoLFBefore(window, FirstLF(window).value); }
  }

  lemma NoLFBefore(window: Bytes, i: nat)
    requires i <= |window| && !HasLF(window[..i])
    ensures forall k :: 0 <= k < i ==> window[k] != LF
  {
    assert forall k :: 0 <= k < i ==> window[..i][k] == window[k];
  }

  lemma NoLFConcat(a: Bytes, b: Bytes)
    ensures HasLF(a + b) <==> HasLF(a) || HasLF(b)
  {
  }

  /** One look at the buffer: a line ends here, the ceiling is passed, or the scan goes on. */
  lemma ReadLineUnfolds(fills: seq<Fill>, readFails: bool, max: nat, line: Bytes, window: Bytes)
    requires WellFilled(fills) && |line| <= max && fills != [] && fills[0].Data?
    requires window == fills[0].bytes[..Min(|fills[0].bytes|, max - |line| + 1)]
    ensures |window| > 0 && (|line| + |window| <= max ==> window == fills[0].bytes)
    ensures ReadLine(fills, readFails, max, line)
         == match FirstLF(window)
            case Some(i) =>
              if |line| + i + 1 > max then (BadLine(ProtocolOversizedFrame), fills)
              else (FullLine(line + window[..i + 1]), Consume(fills, i + 1))
            case None =>
              if |line| + |window| > max then (BadLine(ProtocolOversizedFrame), fills)
              else ReadLine(fills[1..], readFails, max, line + window)
  {
    hide FirstLF, Content;
  }

  /** However the stream is cut up, scanning it gives the line its bytes spell. */
  lemma {:induction false} ReadLineByContent(fills: seq<Fill>, readFails: bool, max: nat, line: Bytes)
    requires WellFilled(fills) && |line| <= max && !HasLF(line)
    ensures ReadLine(fills, readFails, max, line).0 == LineOf(line + Content(fills), readFails, max)
    decreases |fills|
  {
    hide FirstLF, LineOf, HasLF;
    var content := line + Content(fills);
    if fills == [] {
      assert content == line;
      NothingMore(line, readFails, max);
    } else if fills[0].Interrupted? {
      assert Content(fills) == Content(fills[1..]);
      ReadLineByContent(fills[1..], readFails, max, line);
    } else {
      var window := fills[0].bytes[..Min(|fills[0].bytes|, max - |line| + 1)];
      ReadLineUnfolds(fills, readFails, max, line, window);
      hide ReadLine;
      assert Content(fills) == fills[0].bytes + Content(fills[1..]);
      assert line + window <= content;
      match FirstLF(window) {
        case Some(i) => LineEndsIn(content, line, window, i, readFails, max);
        case None =>
          NoLFConcat(line, window);
          if |line| + |window| > max {
            ScannedPast(content, line + window, readFails, max);
          } else {
            assert line + window + Content(fills[1..]) == content;
            ReadLineByContent(fills[1..], readFails, max, line + window);
          }
      }
    }
  }

  lemma LineEndsIn(content: Bytes, line: Bytes, window: Bytes, i: nat, readFails: bool, max: nat)
    requires line + window <= content && !HasLF(line) && FirstLF(window) == Some(i)
    ensures LineOf(content, readFails, max)
         == if |line| + i + 1 > max then BadLine(ProtocolOversizedFrame) else FullLine(line + window[..i + 1])
  {
    hide FirstLF, LineOf, HasLF;
    assert (line + window)[..|line| + i] == line + window[..i];
    NoLFConcat(line, window[..i]);
    ScannedTo(content, line + window, |line| + i, readFails, max);
    assert content[..|line| + i + 1] == line + window[..i + 1];
  }

  lemma NothingMore(line: Bytes, readFails: bool, max: nat)
    requires |line| <= max && !HasLF(line)
    ensures LineOf(line, readFails, max)
         == if readFails || line != [] then BadLine(ProtocolTruncatedFrame) else NoLine
  {
    assert line[..|line|] == line;
  }

  lemma ScannedPast(content: Bytes, scanned: Bytes, readFails: bool, max: nat)
    requires scanned <= content && |scanned| > max && !HasLF(scanned)
    ensures LineOf(content, readFails, max) == BadLine(ProtocolOversizedFrame)
  {
    assert content[..max] == scanned[..max];
  }

  /** A first LF inside the scanned part is the line's end if it lies under the ceiling, too far otherwise. */
  lemma ScannedTo(content: Bytes, scanned: Bytes, at: nat, readFails: bool, max: nat)
    requires scanned <= content && at < |scanned| && scanned[at] == LF && !HasLF(scanned[..at])
    ensures LineOf(content, readFails, max)
         == if at < max then FullLine(content[..at + 1]) else BadLine(ProtocolOversizedFrame)
  {
    var head := content[..Min(|content|, max)];
    if at < max {
      assert head[..at] == scanned[..at];
      FirstLFUnique(head, at);
    } else {
      assert head == scanned[..at][..max];
    }
  }

  predicate IsSuffix(rest: Bytes, whole: Bytes) {
    |rest| <= |whole| && rest == whole[|whole| - |rest|..]
  }

  lemma SuffixBehind(front: Bytes, back: Bytes, rest: Bytes)
    requires IsSuffix(rest, back)
    ensures IsSuffix(rest, front + back)
  {
    assert (front + back)[|front| + |back| - |rest|..] == back[|back| - |rest|..];
  }

  /** What a scan leaves unread: everything after a line, nothing after the end, a suffix always. */
  lemma {:induction false} ReadLineLeaves(fills: seq<Fill>, readFails: bool, max: nat, line: Bytes)
    requires WellFilled(fills) && |line| <= max
    ensures var (l, rest) := ReadLine(fills, readFails, max, line);
            WellFilled(rest)
            && IsSuffix(Content(rest), Content(fills))
            && (l.FullLine? ==> |line| + |Content(fills)| == |l.bytes| + |Content(rest)|)
            && (l.NoLine? || l == BadLine(ProtocolTruncatedFrame) ==> rest == [])
            && (l == BadLine(ProtocolOversizedFrame) ==> |Content(fills)| <= |Content(rest)| + max - |line|)
    decreases |fills|
  {
    hide FirstLF, IsSuffix;
    if fills == [] {
      assert IsSuffix([], []) by { SuffixOfSelf([]); }
    } else if fills[0].Interrupted? {
      assert Content(fills) == Content(fills[1..]);
      ReadLineLeaves(fills[1..], readFails, max, line);
    } else {
      var window := fills[0].bytes[..Min(|fills[0].bytes|, max - |line| + 1)];
      ReadLineUnfolds(fills, readFails, max, line, window);
      hide ReadLine;
      match FirstLF(window) {
        case Some(i) =>
          hide Consume, Content;
          ConsumeContent(fills, i + 1);
          SuffixOfSelf(Content(fills));
          SuffixOfSelf(Content(Consume(fills, i + 1)));
          SuffixBehind(fills[0].bytes[..i + 1], Content(Consume(fills, i + 1)), Content(Consume(fills, i + 1)));
        case None =>
          SuffixOfSelf(Content(fills));
          if |line| + |window| <= max {
            ReadLineLeaves(fills[1..], readFails, max, line + window);
            SuffixBehind(window, Content(fills[1..]), Content(ReadLine(fills[1..], readFails, max, line + window).1));
          }
      }
    }
  }

  lemma SuffixOfSelf(b: Bytes)
    ensures IsSuffix(b, b)
  {
  }

  /**
   * The same bytes give the same line whatever chunks they arrive in, and the same bytes remain,
   * unless the line is oversized: then the run is over and at most the ceiling was consumed.
   */
  lemma ChunkingIsInvisible(a: seq<Fill>, b: seq<Fill>, readFails: bool, max: nat)
    requires WellFilled(a) && WellFilled(b) && Content(a) == Content(b)
    ensures var (l, restA) := ReadLine(a, readFails, max, []);
            var (m, restB) := ReadLine(b, readFails, max, []);
            l == m
            && (l != BadLine(ProtocolOversizedFrame) || max == 0 ==> Content(restA) == Content(restB))
  {
    assert Content([]) == [];
    hide ReadLine, LineOf, IsSuffix, Content, WellFilled;
    ReadLineByContent(a, readFails, max, []);
    ReadLineByContent(b, readFails, max, []);
    ReadLineLeaves(a, readFails, max, []);
    ReadLineLeaves(b, readFails, max, []);
    assert [] + Content(a) == Content(a);
    var (l, restA) := ReadLine(a, readFails, max, []);
    var (m, restB) := ReadLine(b, readFails, max, []);
    EqualSuffixes(Content(restA), Content(restB), Content(a));
  }

  lemma EqualSuffixes(a: Bytes, b: Bytes, whole: Bytes)
    requires IsSuffix(a, whole) && IsSuffix(b, whole)
    ensures |a| == |b| ==> a == b
    ensures a == [] || b == [] || |a| != |b| || a == b
  {
  }

  /** How many bytes a scan takes from the stream. */
  function Consumed(fills: seq<Fill>, readFails: bool, max: nat): int
    requires WellFilled(fills)
  {
    |Content(fills)| - |Content(ReadLine(fills, readFails, max, []).1)|
  }

  /** The first `max` bytes end a line, or there are no more than that: the ceiling is not passed. */
  predicate WithinCeiling(content: Bytes, max: nat) {
    HasLF(content[..Min(|content|, max)]) || |content| <= max
  }

  lemma WithinCeilingExactly(content: Bytes, readFails: bool, max: nat)
    ensures LineOf(content, readFails, max) == BadLine(ProtocolOversizedFrame) <==> !WithinCeiling(content, max)
  {
    var head := content[..Min(|content|, max)];
    if HasLF(head) { assert FirstLF(head).Some?; }
    if FirstLF(head).Some? { assert head[FirstLF(head).value] == LF; }
  }

  /**
   * Exactly when consumption is a matter of bytes alone: every chunking of a stream takes equally
   * many bytes if and only if an LF is among the first `max` bytes, or no more than `max` bytes
   * follow at all, or the ceiling is zero.
   */
  lemma ConsumptionDependsOnChunksOnlyWhenOversized(content: Bytes, readFails: bool, max: nat)
    ensures (forall a, b :: WellFilled(a) && WellFilled(b) && Content(a) == content == Content(b) ==>
               Consumed(a, readFails, max) == Consumed(b, readFails, max))
            <==> WithinCeiling(content, max) || max == 0
  {
    WithinCeilingExactly(content, readFails, max);
    hide ReadLine, LineOf, WithinCeiling;
    if LineOf(content, readFails, max) == BadLine(ProtocolOversizedFrame) && max > 0 {
      OversizedSplits(content, readFails, max);
      var whole, split := [Data(content)], [Data(content[..1]), Data(content[1..])];
      assert Consumed(whole, readFails, max) != Consumed(split, readFails, max);
    } else {
      forall a, b | WellFilled(a) && WellFilled(b) && Content(a) == content == Content(b)
        ensures Consumed(a, readFails, max) == Consumed(b, readFails, max)
      {
        ReadLineByContent(a, readFails, max, []);
        assert [] + content == content;
        ChunkingIsInvisible(a, b, readFails, max);
      }
    }
  }

  lemma OversizedSplits(content: Bytes, readFails: bool, max: nat)
    requires LineOf(content, readFails, max) == BadLine(ProtocolOversizedFrame) && max > 0
    ensures var whole, split := [Data(content)], [Data(content[..1]), Data(content[1..])];
            WellFilled(whole) && WellFilled(split) && Content(whole) == content == Content(split)
            && Consumed(whole, readFails, max) == 0 && Consumed(split, readFails, max) == 1
  {
    var whole, split := [Data(content)], [Data(content[..1]), Data(content[1..])];
    assert content == content[..1] + content[1..];
    assert Content([]) == [];
    assert split[1..] == [Data(content[1..])] && Content(split[1..]) == content[1..];
    assert |content| > max;
    var head := content[..max];
    assert !HasLF(head);
    OversizedAtOnce(content, readFails, max, []);
    assert content[..1] == head[..1] && !HasLF(head[..1]);
    assert content[1..][..max - 1] == head[1..] && !HasLF(head[1..]);
    assert content[..1][..Min(1, max + 1)] == content[..1];
    assert Consume(split, 1) == split[1..] && [] + content[..1] == content[..1];
    OversizedAtOnce(content[1..], readFails, max, content[..1]);
  }

  lemma OversizedAtOnce(chunk: Bytes, readFails: bool, max: nat, line: Bytes)
    requires |line| <= max && |line| + |chunk| > max && !HasLF(chunk[..max - |line|])
    ensures ReadLine([Data(chunk)], readFails, max, line) == (BadLine(ProtocolOversizedFrame), [Data(chunk)])
  {
    NoLFBefore(chunk, max - |line|);
  }
}
