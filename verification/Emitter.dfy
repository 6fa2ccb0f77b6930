/** The Field's side of the stream: an emitter that keeps itself within one run's declared limits. */
module Emitters {
  import opened Wrappers
  import opened Codes
  import opened Manifests
  import opened Protocol
  import opened Counters
  import opened Utf8
  import opened Lines
  import opened Framing

  // ---- The sink ----

  /** What becomes of one write: it lands whole, stops part of the way, or lands but cannot be flushed. */
  datatype WriteOutcome = Lands | StopsAfter(bytes: nat) | FlushFails

  /** Everything written so far, and what the coming writes will meet; past the script every write lands. */
  datatype Sink = Sink(written: Bytes, script: seq<WriteOutcome>)

  function WriteAll(sink: Sink, bytes: Bytes): (Sink, bool) {
    if sink.script == [] then (sink.(written := sink.written + bytes), true)
    else
      var rest := sink.script[1..];
      match sink.script[0]
      case Lands => (Sink(sink.written + bytes, rest), true)
      case StopsAfter(n) => (Sink(sink.written + bytes[..Min(n, |bytes|)], rest), false)
      case FlushFails => (Sink(sink.written + bytes, rest), false)
  }

  /** Encodes a value and writes it as one frame, or refuses a frame past the ceiling without writing. */
  function WriteValue<V(!new)>(c: Codec<V>, sink: Sink, maxFrame: nat, v: V): (Sink, Result<nat, RejectionCode>) {
    var frame := Frame(c, v);
    if |frame| > maxFrame then (sink, Err(ProtocolOversizedFrame))
    else
      var (s, ok) := WriteAll(sink, frame);
      (s, if ok then Ok(|frame|) else Err(ProtocolTruncatedFrame))
  }

  // ---- The emitter ----

  datatype State = State(
    sink: Sink, limits: Limits, recordsEmitted: nat, diagnosticsEmitted: nat, lastWriteError: Option<RejectionCode>)

  function Initial(sink: Sink, limits: Limits): State { State(sink, limits, 0, 0, None) }

  /** Writes one event unless a write has already failed; a failure is final. */
  function Write(c: Codec<FieldEvent>, s: State, event: FieldEvent): (State, bool) {
    if s.lastWriteError.Some? then (s, false)
    else
      var (sink, r) := WriteValue(c, s.sink, s.limits.maxFrameBytes, event);
      match r
      case Ok(_) => (s.(sink := sink), true)
      case Err(code) => (s.(sink := sink, lastWriteError := Some(code)), false)
  }

  /** The run's own limits on one more event of its kind. */
  predicate WithinLimits(s: State, event: FieldEvent) {
    match event
    case RecordFrame(_) => s.recordsEmitted < s.limits.maxRunRecords
    case DiagnosticFrame(_) => s.diagnosticsEmitted < s.limits.maxRunDiagnostics
    case CheckpointFrame(c) => ByteLen(c.cursor) <= s.limits.maxCursorBytes
    case ManifestFrame(_) => true
  }

  function Counted(s: State, event: FieldEvent): State {
    match event
    case RecordFrame(_) => s.(recordsEmitted := s.recordsEmitted + 1)
    case DiagnosticFrame(_) => s.(diagnosticsEmitted := s.diagnosticsEmitted + 1)
    case _ => s
  }

  function Emit(c: Codec<FieldEvent>, s: State, event: FieldEvent): (State, bool) {
    if !WithinLimits(s, event) then (s, false)
    else
      var (t, emitted) := Write(c, s, event);
      (if emitted then Counted(t, event) else t, emitted)
  }

  function EmitAll(c: Codec<FieldEvent>, s: State, events: seq<FieldEvent>): (State, seq<bool>)
    decreases |events|
  {
    if events == [] then (s, [])
    else
      var n := |events| - 1;
      var (t, answers) := EmitAll(c, s, events[..n]);
      var (u, emitted) := Emit(c, t, events[n]);
      (u, answers + [emitted])
  }

  /** The events whose call answered true, in order. */
  function Emitted(events: seq<FieldEvent>, answers: seq<bool>): seq<FieldEvent>
    requires |events| == |answers|
  {
    if events == [] then []
    else
      var n := |events| - 1;
      Emitted(events[..n], answers[..n]) + if answers[n] then [events[n]] else []
  }

  function CountRecords(events: seq<FieldEvent>): nat {
    if events == [] then 0
    else CountRecords(events[..|events| - 1]) + if events[|events| - 1].RecordFrame? then 1 else 0
  }

  function CountDiagnostics(events: seq<FieldEvent>): nat {
    if events == [] then 0
    else CountDiagnostics(events[..|events| - 1]) + if events[|events| - 1].DiagnosticFrame? then 1 else 0
  }

  // ---- What the sink holds ----

  /** The emitted events are within every ceiling of the run, and the counters count them. */
  predicate WithinCeilings(c: Codec<FieldEvent>, s: State, emitted: seq<FieldEvent>) {
    && FramesFit(c, emitted, s.limits.maxFrameBytes)
    && s.recordsEmitted == CountRecords(emitted) <= s.limits.maxRunRecords
    && s.diagnosticsEmitted == CountDiagnostics(emitted) <= s.limits.maxRunDiagnostics
    && forall i :: 0 <= i < |emitted| && emitted[i].CheckpointFrame? ==>
         ByteLen(emitted[i].checkpoint.cursor) <= s.limits.maxCursorBytes
  }

  /** The frames of the emitted events, then at most what one failed write left of its own frame. */
  predicate Faithful(c: Codec<FieldEvent>, s: State, emitted: seq<FieldEvent>, tail: Bytes, failed: Option<FieldEvent>)
  {
    && s.sink.written == Stream(c, emitted) + tail
    && WithinCeilings(c, s, emitted)
    && (s.lastWriteError.None? ==> failed.None?)
    && (failed.None? ==> tail == [])
    && (failed.Some? ==> tail <= Frame(c, failed.value) && |Frame(c, failed.value)| <= s.limits.maxFrameBytes)
  }

  lemma {:induction false} StreamConcat<V(!new)>(c: Codec<V>, a: seq<V>, b: seq<V>)
    ensures Stream(c, a + b) == Stream(c, a) + Stream(c, b)
  {
    hide Frame;
    if a == [] {
      assert a + b == b;
    } else {
      assert (a + b)[1..] == a[1..] + b;
      StreamConcat(c, a[1..], b);
    }
  }

  lemma StreamSnoc<V(!new)>(c: Codec<V>, vs: seq<V>, v: V)
    ensures Stream(c, vs + [v]) == Stream(c, vs) + Frame(c, v)
  {
    StreamConcat(c, vs, [v]);
    assert [v][1..] == [] && Stream(c, [v]) == Frame(c, v) + [];
  }

  predicate LeavesPart(before: Sink, after: Sink, frame: Bytes) {
    exists n: nat :: n <= |frame| && after.written == before.written + frame[..n]
  }

  /** How one call changes the sink: a whole frame when it answers true, a torn one at most when it fails. */
  lemma EmitOutcome(c: Codec<FieldEvent>, s: State, event: FieldEvent)
    ensures var (t, emitted) := Emit(c, s, event);
            var frame := Frame(c, event);
            t.limits == s.limits
            && (emitted ==> s.lastWriteError.None? && t.lastWriteError.None? && WithinLimits(s, event)
                            && |frame| <= s.limits.maxFrameBytes && t.sink.written == s.sink.written + frame
                            && t == Counted(s, event).(sink := t.sink))
            && (!emitted ==> t == s.(sink := t.sink, lastWriteError := t.lastWriteError)
                             && (t.lastWriteError.None? ==> t == s)
                             && (s.lastWriteError.Some? ==> t == s)
                             && (t.sink.written == s.sink.written
                                 || (|frame| <= s.limits.maxFrameBytes && LeavesPart(s.sink, t.sink, frame))))
            && (s.sink.script == [] ==>
                  t.sink.script == [] && (!emitted ==> t.sink == s.sink)
                  && (emitted
                      <==> WithinLimits(s, event) && s.lastWriteError.None? && |frame| <= s.limits.maxFrameBytes))
  {
    hide Frame, WithinLimits;
    var frame := Frame(c, event);
    assert frame[..|frame|] == frame;
  }

  /** The run still has room for an event of this kind, and a checkpoint's cursor is short enough. */
  predicate HasRoom(s: State, event: FieldEvent) {
    && (event.RecordFrame? ==> s.recordsEmitted + 1 <= s.limits.maxRunRecords)
    && (event.DiagnosticFrame? ==> s.diagnosticsEmitted + 1 <= s.limits.maxRunDiagnostics)
    && (event.CheckpointFrame? ==> ByteLen(event.checkpoint.cursor) <= s.limits.maxCursorBytes)
  }

  /**
   * Exactly what a call does: nothing when there is no room or a write has failed before, a latched
   * error and no write for an oversized frame, and otherwise one write of the whole frame.
   */
  lemma EmitExactly(c: Codec<FieldEvent>, s: State, event: FieldEvent)
    ensures var (t, emitted) := Emit(c, s, event);
            var frame, script := Frame(c, event), s.sink.script;
            if !HasRoom(s, event) || s.lastWriteError.Some? then t == s && !emitted
            else if |frame| > s.limits.maxFrameBytes then
              t == s.(lastWriteError := Some(ProtocolOversizedFrame)) && !emitted
            else
              (emitted <==> script == [] || script[0].Lands?)
              && t.lastWriteError == (if emitted then None else Some(ProtocolTruncatedFrame))
              && t.sink.script == (if script == [] then [] else script[1..])
              && t.sink.written
                 == s.sink.written
                    + (if script != [] && script[0].StopsAfter? && script[0].bytes < |frame|
                       then frame[..script[0].bytes] else frame)
              && t.recordsEmitted == s.recordsEmitted + (if emitted && event.RecordFrame? then 1 else 0)
              && t.diagnosticsEmitted == s.diagnosticsEmitted + (if emitted && event.DiagnosticFrame? then 1 else 0)
  {
    hide Frame, ByteLen;
    var frame := Frame(c, event);
    assert frame[..|frame|] == frame;
  }

  lemma EmitKeepsCeilings(c: Codec<FieldEvent>, s: State, event: FieldEvent, emitted: seq<FieldEvent>)
    requires WithinCeilings(c, s, emitted) && WithinLimits(s, event) && |Frame(c, event)| <= s.limits.maxFrameBytes
    ensures WithinCeilings(c, Counted(s, event), emitted + [event])
  {
    hide Frame, ByteLen;
    assert (emitted + [event])[..|emitted|] == emitted;
  }

  lemma EmitKeepsFaithful(c: Codec<FieldEvent>, s: State, event: FieldEvent, emitted: seq<FieldEvent>, tail: Bytes,
                          failed: Option<FieldEvent>)
    returns (tail': Bytes, failed': Option<FieldEvent>)
    requires Faithful(c, s, emitted, tail, failed)
    ensures var (t, answer) := Emit(c, s, event);
            Faithful(c, t, emitted + if answer then [event] else [], tail', failed')
            && (s.sink.script == [] && failed.None? ==> failed'.None?)
            && (failed' == failed
                || (failed' == Some(event) && !answer && s.lastWriteError.None? && t.lastWriteError.Some?))
  {
    hide Emit, Frame, WithinCeilings, Stream;
    EmitOutcome(c, s, event);
    var (t, answer) := Emit(c, s, event);
    tail', failed' := tail, failed;
    if answer {
      EmitKeepsCeilings(c, s, event, emitted);
      CeilingsIgnoreSink(c, Counted(s, event), t, emitted + [event]);
      StreamSnoc(c, emitted, event);
      assert Stream(c, emitted) + [] + Frame(c, event) == Stream(c, emitted) + Frame(c, event) + [];
    } else {
      assert emitted + [] == emitted;
      CeilingsIgnoreSink(c, s, t, emitted);
      if t.sink.written != s.sink.written {
        var n: nat :| n <= |Frame(c, event)| && t.sink.written == s.sink.written + Frame(c, event)[..n];
        tail', failed' := Frame(c, event)[..n], Some(event);
        assert Stream(c, emitted) + [] + tail' == Stream(c, emitted) + tail';
      }
    }
  }

  lemma CeilingsIgnoreSink(c: Codec<FieldEvent>, s: State, t: State, emitted: seq<FieldEvent>)
    requires WithinCeilings(c, s, emitted) && t == s.(sink := t.sink, lastWriteError := t.lastWriteError)
    ensures WithinCeilings(c, t, emitted)
  {
  }

  /** The one call a run of calls failed on: no write had failed before it, and one has after it. */
  predicate FailsAt(c: Codec<FieldEvent>, sink: Sink, limits: Limits, events: seq<FieldEvent>, m: nat) {
    && m < |events|
    && EmitAll(c, Initial(sink, limits), events[..m]).0.lastWriteError.None?
    && EmitAll(c, Initial(sink, limits), events[..m + 1]).0.lastWriteError.Some?
  }

  lemma FailsAtLater(c: Codec<FieldEvent>, sink: Sink, limits: Limits, events: seq<FieldEvent>, n: nat, m: nat)
    requires n <= |events| && FailsAt(c, sink, limits, events[..n], m)
    ensures FailsAt(c, sink, limits, events, m)
  {
    hide EmitAll;
    assert events[..n][..m] == events[..m] && events[..n][..m + 1] == events[..m + 1];
  }

  /**
   * After any calls on any sink, the sink holds exactly the frames whose call answered true, all
   * within the run's ceilings, and after a failed write at most a torn frame of the call that failed.
   */
  lemma {:induction false} EmitAllFaithful(c: Codec<FieldEvent>, sink: Sink, limits: Limits, events: seq<FieldEvent>)
    returns (tail: Bytes, failed: Option<FieldEvent>, m: nat)
    requires sink.written == []
    ensures var (s, answers) := EmitAll(c, Initial(sink, limits), events);
            |answers| == |events|
            && s.limits == limits
            && Faithful(c, s, Emitted(events, answers), tail, failed)
            && (failed.Some? ==>
                  m < |events| && FailsAt(c, sink, limits, events, m) && failed.value == events[m] && !answers[m])
            && (sink.script == [] ==> s.sink.script == [] && failed.None?)
    decreases |events|
  {
    hide Emit, Frame, WithinCeilings, Stream, Faithful, FailsAt;
    if events == [] {
      tail, failed, m := [], None, 0;
      NothingEmitted(c, sink, limits);
    } else {
      var n := |events| - 1;
      var before;
      tail, before, m := EmitAllFaithful(c, sink, limits, events[..n]);
      var (t, answers) := EmitAll(c, Initial(sink, limits), events[..n]);
      EmitOutcome(c, t, events[n]);
      var answer := Emit(c, t, events[n]).1;
      tail, failed := EmitKeepsFaithful(c, t, events[n], Emitted(events[..n], answers), tail, before);
      assert (answers + [answer])[..n] == answers;
      if failed != before {
        m := n;
        FailsAtLast(c, sink, limits, events);
      } else if failed.Some? {
        FailsAtLater(c, sink, limits, events, n, m);
      }
    }
  }

  lemma FailsAtLast(c: Codec<FieldEvent>, sink: Sink, limits: Limits, events: seq<FieldEvent>)
    requires events != []
    requires var n := |events| - 1; var t := EmitAll(c, Initial(sink, limits), events[..n]).0;
             t.lastWriteError.None? && Emit(c, t, events[n]).0.lastWriteError.Some?
    ensures FailsAt(c, sink, limits, events, |events| - 1)
  {
    hide Emit;
    assert events[..|events|] == events;
  }

  lemma NothingEmitted(c: Codec<FieldEvent>, sink: Sink, limits: Limits)
    requires sink.written == []
    ensures Faithful(c, Initial(sink, limits), [], [], None)
  {
  }

  /**
   * What core reads of what a Field emits, in any chunks: one sequence answers every call, exactly
   * the emitted events, in order, or the longest prefix within the run's byte bound and then the
   * limit error. A sink that failed adds to that sequence at most the event of the call it failed on,
   * or leaves part of that event's frame behind it, which is refused.
   */
  lemma ReaderSeesWhatWasEmitted(c: Codec<FieldEvent>, sink: Sink, limits: Limits, events: seq<FieldEvent>,
                                 fills: seq<Fill>, readFails: bool, maxTotal: nat)
    returns (delivered: seq<FieldEvent>, torn: Bytes, m: nat)
    requires Lawful(c) && sink.written == [] && maxTotal <= U64_MAX
    requires WellFilled(fills) && Content(fills) == EmitAll(c, Initial(sink, limits), events).0.sink.written
    ensures var answers := EmitAll(c, Initial(sink, limits), events).1;
            var reader := Reader(fills, readFails, limits.maxFrameBytes, maxTotal, 0, false);
            |answers| == |events|
            && ((delivered == Emitted(events, answers) && torn == [])
                || (m < |events| && FailsAt(c, sink, limits, events, m) && !answers[m]
                    && if delivered == Emitted(events, answers) then torn < Frame(c, events[m])
                       else delivered == Emitted(events, answers) + [events[m]] && torn == []))
            && (sink.script == [] ==> delivered == Emitted(events, answers) && torn == [])
            && forall n: nat, i: nat :: i < n ==>
                 Calls(c, reader, n)[i]
                 == Answer(c, delivered, Fit(c, delivered, 0, maxTotal),
                           Ending(torn, readFails, limits.maxFrameBytes), i)
  {
    hide Lawful, EmitAll, Frame, Stream, Calls, Answer, Fit, Emitted, FailsAt;
    var tail, failed;
    tail, failed, m := EmitAllFaithful(c, sink, limits, events);
    var (s, answers) := EmitAll(c, Initial(sink, limits), events);
    var emitted := Emitted(events, answers);
    delivered, torn := emitted, tail;
    if HasLF(tail) {
      FrameReads(c, failed.value);
      WholeIfTerminated(Frame(c, failed.value), tail);
      delivered, torn := emitted + [failed.value], [];
      StreamSnoc(c, emitted, failed.value);
      assert Stream(c, delivered) + [] == Stream(c, delivered);
    } else if failed.Some? {
      FrameReads(c, failed.value);
      assert tail != Frame(c, failed.value);
    }
    var reader := Reader(fills, readFails, limits.maxFrameBytes, maxTotal, 0, false);
    assert Reading(c, reader, delivered, torn);
    forall n: nat, i: nat | i < n
      ensures Calls(c, reader, n)[i]
           == Answer(c, delivered, Fit(c, delivered, 0, maxTotal), Ending(torn, readFails, limits.maxFrameBytes), i)
    {
      ReaderReturnsWhatFits(c, reader, delivered, torn, n, i);
    }
  }

  lemma WholeIfTerminated(frame: Bytes, tail: Bytes)
    requires FirstLF(frame) == Some(|frame| - 1) && tail <= frame && HasLF(tail)
    ensures tail == frame
  {
    NoLFBefore(frame, |frame| - 1);
  }

  // ---- The emitter as a Field holds it ----

  class Emitter {
    const codec: Codec<FieldEvent>
    const limits: Limits
    var sink: Sink
    var seq_: nat
    var diagnosticsEmitted: nat
    var recordsEmitted: nat
    var writeFailed: bool
    var lastWriteError: Option<RejectionCode>

    ghost function View(): State
      reads this
    {
      State(sink, limits, recordsEmitted, diagnosticsEmitted, lastWriteError)
    }

    ghost predicate Valid()
      reads this
    {
      writeFailed <==> lastWriteError.Some?
    }

    constructor (codec: Codec<FieldEvent>, sink: Sink, limits: Limits)
      ensures Valid() && View() == Initial(sink, limits) && seq_ == 0 && this.codec == codec
    {
      this.codec, this.sink, this.limits := codec, sink, limits;
      seq_, diagnosticsEmitted, recordsEmitted := 0, 0, 0;
      writeFailed, lastWriteError := false, None;
    }

    /** Allocates the next sequence number; the first is 1. */
    method NextSeq() returns (next: nat)
      modifies this`seq_
      ensures next == seq_ == old(seq_) + 1
    {
      seq_ := seq_ + 1;
      next := seq_;
    }

    method WriteEvent(event: FieldEvent) returns (emitted: bool)
      requires Valid()
      modifies this`sink, this`writeFailed, this`lastWriteError
      ensures Valid() && (View(), emitted) == Write(codec, old(View()), event)
    {
      if writeFailed { return false; }
      var (after, r) := WriteValue(codec, sink, limits.maxFrameBytes, event);
      sink := after;
      if r.Err? {
        writeFailed, lastWriteError := true, Some(r.error);
        return false;
      }
      emitted := true;
    }

    method EmitRecord(record: RecordEvent) returns (emitted: bool)
      requires Valid()
      modifies this
      ensures Valid() && (View(), emitted) == Emit(codec, old(View()), RecordFrame(record)) && seq_ == old(seq_)
    {
      if recordsEmitted >= limits.maxRunRecords { return false; }
      emitted := WriteEvent(RecordFrame(record));
      if emitted { recordsEmitted := recordsEmitted + 1; }
    }

    method EmitDiagnostic(diagnostic: DiagnosticEvent) returns (emitted: bool)
      requires Valid()
      modifies this
      ensures Valid() && (View(), emitted) == Emit(codec, old(View()), DiagnosticFrame(diagnostic)) && seq_ == old(seq_)
    {
      if diagnosticsEmitted >= limits.maxRunDiagnostics { return false; }
      emitted := WriteEvent(DiagnosticFrame(diagnostic));
      if emitted { diagnosticsEmitted := diagnosticsEmitted + 1; }
    }

    method EmitCheckpoint(checkpoint: CheckpointEvent) returns (emitted: bool)
      requires Valid()
      modifies this
      ensures Valid() && (View(), emitted) == Emit(codec, old(View()), CheckpointFrame(checkpoint)) && seq_ == old(seq_)
    {
      if ByteLen(checkpoint.cursor) > limits.maxCursorBytes { return false; }
      emitted := WriteEvent(CheckpointFrame(checkpoint));
    }

    method EmitManifest(manifest: Manifest) returns (emitted: bool)
      requires Valid()
      modifies this
      ensures Valid() && (View(), emitted) == Emit(codec, old(View()), ManifestFrame(manifest)) && seq_ == old(seq_)
    {
      emitted := WriteEvent(ManifestFrame(manifest));
    }
  }
}
