/** Newline-delimited frames: the bounded reader, the self-policing writer, and the standard-error buffer. */
module Framing {
  import opened Wrappers
  import opened Codes
  import opened Counters
  import opened Utf8
  import opened Lines

  // ---- The encoding ----

  /** How bytes become text, text becomes a value, and a value becomes text again. */
  datatype Codec<!V(!new)> = Codec(text: Bytes -> Option<string>, parse: string -> Option<V>, show: V -> string)

  /** What the UTF-8 and JSON libraries promise: both round trips, and no LF inside a value. */
  ghost predicate Lawful<V(!new)>(c: Codec<V>) {
    && (forall s: string :: c.text(EncodeAll(s)) == Some(s))
    && (forall v: V :: c.parse(c.show(v)) == Some(v))
    && (forall v: V :: '\n' !in c.show(v))
  }

  /** One value on the wire: its text and exactly one LF. */
  function Frame<V(!new)>(c: Codec<V>, v: V): Bytes { EncodeAll(c.show(v)) + [LF] }

  function Stream<V(!new)>(c: Codec<V>, vs: seq<V>): Bytes {
    if vs == [] then [] else Frame(c, vs[0]) + Stream(c, vs[1..])
  }

  function TrimNewlines(text: string): string {
    if text != [] && text[|text| - 1] == '\n' then TrimNewlines(text[..|text| - 1]) else text
  }

  lemma {:induction false} NoNewlineNoLF(s: string)
    requires '\n' !in s
    ensures !HasLF(EncodeAll(s))
  {
    if s != [] {
      assert s[0] in s;
      NoNewlineNoLF(s[1..]);
      NoLFConcat(Encode(s[0]), EncodeAll(s[1..]));
    }
  }

  /** A frame read as text is the value's text, whatever JSON it is. */
  lemma FrameReads<V(!new)>(c: Codec<V>, v: V)
    requires Lawful(c)
    ensures FirstLF(Frame(c, v)) == Some(|Frame(c, v)| - 1)
    ensures c.text(Frame(c, v)) == Some(c.show(v) + "\n")
    ensures c.parse(TrimNewlines(c.show(v) + "\n")) == Some(v)
  {
    hide FirstLF, HasLF;
    var s := c.show(v);
    NoNewlineNoLF(s);
    assert Frame(c, v)[..|Frame(c, v)| - 1] == EncodeAll(s);
    FirstLFUnique(Frame(c, v), |Frame(c, v)| - 1);
    EncodeConcat(s, "\n");
    assert "\n"[1..] == [] && EncodeAll("\n") == [LF];
    assert (s + "\n")[..|s|] == s;
    assert s != [] ==> s[|s| - 1] in s;
  }

  // ---- Reading frames ----

  datatype RawFrame<V> = RawFrame(value: V, wireBytes: nat)

  type Reply<V> = Result<Option<RawFrame<V>>, RejectionCode>

  datatype Reader = Reader(
    fills: seq<Fill>, readFails: bool, maxFrameBytes: nat, maxTotalBytes: nat, totalBytes: nat, poisoned: bool)

  function Interpret<V(!new)>(c: Codec<V>, bytes: Bytes): Result<V, RejectionCode> {
    match c.text(bytes)
    case None => Err(ProtocolInvalidUtf8)
    case Some(text) =>
      match c.parse(TrimNewlines(text))
      case None => Err(ProtocolNotJson)
      case Some(value) => Ok(value)
  }

  /** A whole line counts towards the run's bytes before anything is made of it. */
  function Deliver<V(!new)>(c: Codec<V>, r: Reader, bytes: Bytes): (result: (Reader, Reply<V>))
    ensures result.0.fills == r.fills
  {
    var t := r.(totalBytes := SaturatingAdd(r.totalBytes, |bytes|));
    if t.totalBytes > t.maxTotalBytes then (t.(poisoned := true), Err(ProtocolLimitExceeded))
    else
      match Interpret(c, bytes)
      case Err(code) => (t.(poisoned := true), Err(code))
      case Ok(value) => (t, Ok(Some(RawFrame(value, |bytes|))))
  }

  /** One call: a frame, the clean end, or an error that poisons the reader for good. */
  function NextFrame<V(!new)>(c: Codec<V>, r: Reader): (result: (Reader, Reply<V>))
    requires WellFilled(r.fills)
    ensures WellFilled(result.0.fills)
  {
    if r.poisoned then (r, Err(ProtocolUnexpectedOrder))
    else
      ReadLineLeaves(r.fills, r.readFails, r.maxFrameBytes, []);
      var (line, rest) := ReadLine(r.fills, r.readFails, r.maxFrameBytes, []);
      match line
      case NoLine => (r.(fills := rest), Ok(None))
      case BadLine(code) => (r.(fills := rest, poisoned := true), Err(code))
      case FullLine(bytes) => Deliver(c, r.(fills := rest), bytes)
  }

  /** The replies of `n` calls in a row. */
  function Calls<V(!new)>(c: Codec<V>, r: Reader, n: nat): (replies: seq<Reply<V>>)
    requires WellFilled(r.fills)
    ensures |replies| == n
    decreases n
  {
    if n == 0 then [] else
      var (t, reply) := NextFrame(c, r);
      [reply] + Calls(c, t, n - 1)
  }

  lemma {:induction false} PoisonIsPermanent<V(!new)>(c: Codec<V>, r: Reader, n: nat)
    requires WellFilled(r.fills) && r.poisoned
    ensures forall i :: 0 <= i < n ==> Calls(c, r, n)[i] == Err(ProtocolUnexpectedOrder)
  {
    if n > 0 { PoisonIsPermanent(c, r, n - 1); }
  }

  /** Any error ends the run: every later call is refused. */
  lemma {:induction false} ErrorIsFinal<V(!new)>(c: Codec<V>, r: Reader, n: nat, i: nat, j: nat)
    requires WellFilled(r.fills) && i < j < n && Calls(c, r, n)[i].Err?
    ensures Calls(c, r, n)[j] == Err(ProtocolUnexpectedOrder)
    decreases n
  {
    hide ReadLine, Interpret;
    var (t, reply) := NextFrame(c, r);
    if i == 0 {
      PoisonIsPermanent(c, t, n - 1);
    } else {
      ErrorIsFinal(c, t, n - 1, i - 1, j - 1);
    }
  }

  /** Two readers over the same bytes, however chunked, or both stopped. */
  predicate SameStream(a: Reader, b: Reader) {
    && WellFilled(a.fills) && WellFilled(b.fills)
    && a == b.(fills := a.fills)
    && (a.poisoned || Content(a.fills) == Content(b.fills))
  }

  lemma SameStreamStep<V(!new)>(c: Codec<V>, a: Reader, b: Reader)
    requires SameStream(a, b)
    ensures NextFrame(c, a).1 == NextFrame(c, b).1 && SameStream(NextFrame(c, a).0, NextFrame(c, b).0)
  {
    hide ReadLine, Interpret, Content;
    if !a.poisoned { ChunkingIsInvisible(a.fills, b.fills, a.readFails, a.maxFrameBytes); }
  }

  /** Every run of calls answers the same for every chunking of the same bytes. */
  lemma {:induction false} ReadingIgnoresChunks<V(!new)>(c: Codec<V>, a: Reader, b: Reader, n: nat)
    requires SameStream(a, b)
    ensures Calls(c, a, n) == Calls(c, b, n)
    decreases n
  {
    hide NextFrame, SameStream;
    if n > 0 {
      SameStreamStep(c, a, b);
      WellFilledBoth(a, b);
      ReadingIgnoresChunks(c, NextFrame(c, a).0, NextFrame(c, b).0, n - 1);
    }
  }

  lemma WellFilledBoth(a: Reader, b: Reader)
    requires SameStream(a, b)
    ensures WellFilled(a.fills) && WellFilled(b.fills)
  {
  }

  // ---- What a reader returns for a stream of frames ----

  /** How many leading frames fit the run's byte bound. */
  function Fit<V(!new)>(c: Codec<V>, vs: seq<V>, total: nat, maxTotal: nat): (k: nat)
    ensures k <= |vs|
  {
    if vs == [] then 0
    else
      var t := SaturatingAdd(total, |Frame(c, vs[0])|);
      if t > maxTotal then 0 else 1 + Fit(c, vs[1..], t, maxTotal)
  }

  /** The bound admits a byte total, which saturates at the width of its counter. */
  predicate Admits(maxTotal: nat, total: nat) { total <= maxTotal || maxTotal == U64_MAX }

  /** The frames that fit are the longest prefix whose bytes the bound admits. */
  lemma {:induction false} FitIsLongest<V(!new)>(c: Codec<V>, vs: seq<V>, total: nat, maxTotal: nat)
    requires total <= maxTotal <= U64_MAX
    ensures var k := Fit(c, vs, total, maxTotal);
            Admits(maxTotal, total + |Stream(c, vs[..k])|)
            && (k < |vs| ==> !Admits(maxTotal, total + |Stream(c, vs[..k + 1])|))
    decreases vs
  {
    if vs != [] {
      hide Frame;
      var size := |Frame(c, vs[0])|;
      var t := SaturatingAdd(total, size);
      var k := Fit(c, vs, total, maxTotal);
      if t > maxTotal {
        assert vs[..1][1..] == [] && vs[..0] == [];
      } else {
        FitIsLongest(c, vs[1..], t, maxTotal);
        assert vs[..k][1..] == vs[1..][..k - 1];
        if k < |vs| { assert vs[..k + 1][1..] == vs[1..][..k]; }
      }
    }
  }

  /** What ends the stream after its last whole frame: the clean end, or a remainder no LF terminates. */
  function Ending<V>(tail: Bytes, readFails: bool, maxFrame: nat): Reply<V> {
    if |tail| > maxFrame then Err(ProtocolOversizedFrame)
    else if readFails || tail != [] then Err(ProtocolTruncatedFrame)
    else Ok(None)
  }

  /** The answer to the i-th call on a stream of frames, of which the first `fit` are within the byte bound. */
  function Answer<V(!new)>(c: Codec<V>, vs: seq<V>, fit: nat, ending: Reply<V>, i: nat): Reply<V>
    requires fit <= |vs|
  {
    if i < fit then Ok(Some(RawFrame(vs[i], |Frame(c, vs[i])|)))
    else if fit < |vs| then Err(if i == fit then ProtocolLimitExceeded else ProtocolUnexpectedOrder)
    else if ending.Ok? || i == fit then ending
    else Err(ProtocolUnexpectedOrder)
  }

  predicate FramesFit<V(!new)>(c: Codec<V>, vs: seq<V>, maxFrame: nat) {
    forall i :: 0 <= i < |vs| ==> |Frame(c, vs[i])| <= maxFrame
  }

  /** A reader about to read whole frames, then a remainder without an LF. */
  ghost predicate Reading<V(!new)>(c: Codec<V>, r: Reader, vs: seq<V>, tail: Bytes) {
    && WellFilled(r.fills) && !r.poisoned && r.totalBytes <= r.maxTotalBytes <= U64_MAX
    && Content(r.fills) == Stream(c, vs) + tail && !HasLF(tail)
    && FramesFit(c, vs, r.maxFrameBytes)
  }

  lemma ReadingIsFilled<V(!new)>(c: Codec<V>, r: Reader, vs: seq<V>, tail: Bytes)
    requires Reading(c, r, vs, tail)
    ensures WellFilled(r.fills)
  {
  }

  /** The next whole frame is delivered, or breaks the byte bound and stops the reader. */
  lemma ReadsFrame<V(!new)>(c: Codec<V>, r: Reader, vs: seq<V>, tail: Bytes)
    requires Lawful(c) && Reading(c, r, vs, tail) && vs != []
    ensures var (t, reply) := NextFrame(c, r);
            var size := |Frame(c, vs[0])|;
            var total := SaturatingAdd(r.totalBytes, size);
            if total > r.maxTotalBytes then t.poisoned && reply == Err(ProtocolLimitExceeded)
            else reply == Ok(Some(RawFrame(vs[0], size))) && Reading(c, t, vs[1..], tail)
                 && t == r.(fills := t.fills, totalBytes := total)
  {
    hide ReadLine, FirstLF, HasLF, EncodeAll, WellFilled, Content;
    var frame, later := Frame(c, vs[0]), Stream(c, vs[1..]) + tail;
    FrameReads(c, vs[0]);
    hide Lawful, Frame;
    assert Content(r.fills) == frame + later;
    hide Stream;
    assert |frame| <= r.maxFrameBytes;
    ScansLeadingLine(r.fills, frame, later, r.readFails, r.maxFrameBytes);
    assert FramesFit(c, vs[1..], r.maxFrameBytes);
  }

  lemma ScansLeadingLine(fills: seq<Fill>, frame: Bytes, later: Bytes, readFails: bool, maxFrame: nat)
    requires WellFilled(fills) && Content(fills) == frame + later
    requires FirstLF(frame) == Some(|frame| - 1) && |frame| <= maxFrame
    ensures var (line, rest) := ReadLine(fills, readFails, maxFrame, []);
            line == FullLine(frame) && WellFilled(rest) && Content(rest) == later
  {
    hide ReadLine, FirstLF, HasLF, LineOf, WellFilled, Content;
    LeadingLine(frame, later, readFails, maxFrame);
    assert [] + Content(fills) == Content(fills);
    NoLFInNothing();
    ReadLineByContent(fills, readFails, maxFrame, []);
    ReadLineLeaves(fills, readFails, maxFrame, []);
    assert (frame + later)[|frame|..] == later;
  }

  lemma NoLFInNothing()
    ensures !HasLF([])
  {
  }

  lemma LeadingLine(frame: Bytes, later: Bytes, readFails: bool, maxFrame: nat)
    requires FirstLF(frame) == Some(|frame| - 1) && |frame| <= maxFrame
    ensures LineOf(frame + later, readFails, maxFrame) == FullLine(frame)
  {
    var content := frame + later;
    ScannedTo(content, frame, |frame| - 1, readFails, maxFrame);
    assert content[..|frame|] == frame;
  }

  /** After the last whole frame, the stream's ending is reported. */
  lemma ReadsEnding<V(!new)>(c: Codec<V>, r: Reader, tail: Bytes)
    requires Reading(c, r, [], tail)
    ensures var (t, reply) := NextFrame(c, r);
            reply == Ending(tail, r.readFails, r.maxFrameBytes)
            && if reply.Ok? then Reading(c, t, [], tail) && t == r.(fills := []) else t.poisoned
  {
    assert Content(r.fills) == [] + tail == tail;
    hide ReadLine, LineOf, Content, FirstLF, HasLF, Deliver;
    ScansEnding<V>(r.fills, tail, r.readFails, r.maxFrameBytes);
    if tail == [] && !r.readFails { NothingLeft(c, r.(fills := [])); }
  }

  lemma NothingLeft<V(!new)>(c: Codec<V>, r: Reader)
    requires r.fills == [] && !r.poisoned && r.totalBytes <= r.maxTotalBytes <= U64_MAX
    ensures Reading(c, r, [], [])
  {
  }

  lemma ScansEnding<V>(fills: seq<Fill>, tail: Bytes, readFails: bool, maxFrame: nat)
    requires WellFilled(fills) && Content(fills) == tail && !HasLF(tail)
    ensures var (line, rest) := ReadLine(fills, readFails, maxFrame, []);
            var ending: Reply<V> := Ending(tail, readFails, maxFrame);
            line == (if ending.Ok? then NoLine else BadLine(ending.error)) && (ending.Ok? ==> rest == [])
  {
    hide ReadLine, LineOf, Content, FirstLF, HasLF;
    assert [] + tail == tail;
    NoLFInNothing();
    ReadLineByContent(fills, readFails, maxFrame, []);
    ReadLineLeaves(fills, readFails, maxFrame, []);
    if |tail| > maxFrame {
      ScannedPast(tail, tail, readFails, maxFrame);
    } else {
      NothingMore(tail, readFails, maxFrame);
    }
  }

  /** The text without the line feeds it ends in. */
  predicate Stripped(text: string, stripped: string) {
    && stripped <= text && (forall k :: |stripped| <= k < |text| ==> text[k] == '\n')
    && (stripped != "" ==> stripped[|stripped| - 1] != '\n')
  }

  lemma {:induction false} TrimExactly(text: string)
    ensures Stripped(text, TrimNewlines(text))
  {
    if text != [] && text[|text| - 1] == '\n' { TrimExactly(text[..|text| - 1]); }
  }

  /**
   * What any whole line within the frame ceiling is answered with: a limit error once it takes the run
   * past its byte bound, else the UTF-8 or the JSON error it deserves, else its value.
   */
  lemma LineAnswered<V(!new)>(c: Codec<V>, r: Reader, line: Bytes, later: Bytes, stripped: string)
    requires WellFilled(r.fills) && !r.poisoned && Content(r.fills) == line + later
    requires FirstLF(line) == Some(|line| - 1) && |line| <= r.maxFrameBytes
    requires c.text(line).Some? ==> Stripped(c.text(line).value, stripped)
    ensures var (t, reply) := NextFrame(c, r);
            var total := if r.totalBytes + |line| > U64_MAX then U64_MAX else r.totalBytes + |line|;
            t == r.(fills := t.fills, totalBytes := total, poisoned := reply.Err?) && Content(t.fills) == later
            && reply == if total > r.maxTotalBytes then Err(ProtocolLimitExceeded)
                        else if c.text(line).None? then Err(ProtocolInvalidUtf8)
                        else match c.parse(stripped)
                             case None => Err(ProtocolNotJson)
                             case Some(value) => Ok(Some(RawFrame(value, |line|)))
  {
    ScansLeadingLine(r.fills, line, later, r.readFails, r.maxFrameBytes);
    if c.text(line).Some? { StrippedOnce(c.text(line).value, stripped); }
    hide ReadLine, FirstLF, Content, WellFilled, TrimNewlines, Stripped;
  }

  lemma StrippedOnce(text: string, stripped: string)
    requires Stripped(text, stripped)
    ensures TrimNewlines(text) == stripped
  {
    TrimExactly(text);
    var trimmed := TrimNewlines(text);
    assert trimmed == text[..|trimmed|] && stripped == text[..|stripped|];
    assert |trimmed| == |stripped|;
  }

  /**
   * The reader returns exactly the stream's frames, in order, whatever the chunks: all of them and
   * then the stream's ending, or the longest prefix within the byte bound, then a limit error, then
   * nothing but the poisoned answer.
   */
  lemma {:induction false} ReaderReturnsWhatFits<V(!new)>(c: Codec<V>, r: Reader, vs: seq<V>, tail: Bytes,
                                                            n: nat, i: nat)
    requires Lawful(c) && Reading(c, r, vs, tail) && i < n
    ensures Calls(c, r, n)[i]
         == Answer(c, vs, Fit(c, vs, r.totalBytes, r.maxTotalBytes), Ending(tail, r.readFails, r.maxFrameBytes), i)
    decreases n
  {
    hide Lawful, Reading, Frame, NextFrame;
    ReadingIsFilled(c, r, vs, tail);
    var (t, reply) := NextFrame(c, r);
    if vs == [] {
      ReadsEnding(c, r, tail);
      if i > 0 {
        if reply.Ok? { ReaderReturnsWhatFits(c, t, [], tail, n - 1, i - 1); } else { PoisonIsPermanent(c, t, n - 1); }
      }
    } else {
      ReadsFrame(c, r, vs, tail);
      if i > 0 {
        if reply.Ok? {
          ReaderReturnsWhatFits(c, t, vs[1..], tail, n - 1, i - 1);
        } else {
          PoisonIsPermanent(c, t, n - 1);
        }
      }
    }
  }

  // ---- The reader as core holds it ----

  class FrameReader<V(!new)> {
    const codec: Codec<V>
    const readFails: bool
    const maxFrameBytes: nat
    const maxTotalBytes: nat
    var fills: seq<Fill>
    var totalBytes: nat
    var poisoned: bool

    ghost function View(): Reader
      reads this
    {
      Reader(fills, readFails, maxFrameBytes, maxTotalBytes, totalBytes, poisoned)
    }

    ghost predicate Valid()
      reads this
    {
      WellFilled(fills)
    }

    constructor (codec: Codec<V>, fills: seq<Fill>, readFails: bool, maxFrameBytes: nat, maxTotalBytes: nat)
      requires WellFilled(fills)
      ensures Valid() && this.codec == codec
      ensures View() == Reader(fills, readFails, maxFrameBytes, maxTotalBytes, 0, false)
    {
      this.codec, this.fills, this.readFails := codec, fills, readFails;
      this.maxFrameBytes, this.maxTotalBytes := maxFrameBytes, maxTotalBytes;
      totalBytes, poisoned := 0, false;
    }

    /** Collects one line chunk by chunk; the line held so far stays within `maxFrameBytes`. */
    method ReadLineBounded() returns (result: Line)
      requires Valid()
      modifies this`fills
      ensures Valid() && (result, fills) == ReadLine(old(fills), readFails, maxFrameBytes, [])
    {
      var line: Bytes := [];
      while true
        invariant Valid() && |line| <= maxFrameBytes
        invariant ReadLine(fills, readFails, maxFrameBytes, line) == ReadLine(old(fills), readFails, maxFrameBytes, [])
        decreases |fills|
      {
        if fills == [] {
          if readFails || line != [] { return BadLine(ProtocolTruncatedFrame); }
          return NoLine;
        }
        if fills[0].Interrupted? {
          fills := fills[1..];
          continue;
        }
        var available := fills[0].bytes;
        var remaining := maxFrameBytes - |line|;
        var horizon := Min(|available|, remaining + 1);
        var window := available[..horizon];
        match FirstLF(window) {
          case Some(index) =>
            if |line| + index + 1 > maxFrameBytes { return BadLine(ProtocolOversizedFrame); }
            line := line + window[..index + 1];
            fills := Consume(fills, index + 1);
            return FullLine(line);
          case None =>
            if |line| + |window| > maxFrameBytes { return BadLine(ProtocolOversizedFrame); }
            line := line + window;
            fills := Consume(fills, horizon);
        }
      }
    }

    /** Counts and decodes a whole line. */
    method DeliverLine(bytes: Bytes) returns (reply: Reply<V>)
      requires Valid()
      modifies this`totalBytes, this`poisoned
      ensures Valid() && (View(), reply) == Deliver(codec, old(View()), bytes)
    {
      totalBytes := SaturatingAdd(totalBytes, |bytes|);
      if totalBytes > maxTotalBytes {
        poisoned := true;
        return Err(ProtocolLimitExceeded);
      }
      var text := codec.text(bytes);
      if text.None? {
        poisoned := true;
        return Err(ProtocolInvalidUtf8);
      }
      var value := codec.parse(TrimNewlines(text.value));
      if value.None? {
        poisoned := true;
        return Err(ProtocolNotJson);
      }
      reply := Ok(Some(RawFrame(value.value, |bytes|)));
    }

    /** Reads the next frame; any violation is final. */
    method Next() returns (reply: Reply<V>)
      requires Valid()
      modifies this
      ensures Valid() && (View(), reply) == NextFrame(codec, old(View()))
    {
      hide ReadLine, Deliver, WellFilled;
      ghost var expected := NextFrame(codec, View());
      if poisoned { return Err(ProtocolUnexpectedOrder); }
      var line := ReadLineBounded();
      match line {
        case NoLine => reply := Ok(None);
        case BadLine(code) =>
          poisoned := true;
          reply := Err(code);
        case FullLine(bytes) => reply := DeliverLine(bytes);
      }
    }
  }
}
