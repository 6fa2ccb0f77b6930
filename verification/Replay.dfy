/** Replaying an accepted run: the next run recognises every object and rewrites nothing. */
module Replay {
  import opened Wrappers
  import opened Manifests
  import opened Protocol
  import opened Session
  import opened SessionRuns

  /** The payloads a trace shows accepted, in order. */
  function AcceptedPayloads(h: seq<Entry>): seq<RecordPayload> {
    if h == [] then []
    else
      var e := h[|h| - 1];
      AcceptedPayloads(h[..|h| - 1]) + if AcceptedRecordEntry(e) then [e.op.event.record.payload] else []
  }

  /** What a session must already hold for a payload to be a no-op in it. */
  predicate Recognised(manifest: Manifest, limits: Limits, index: Index, seen: map<SourceKey, Fingerprint>,
                       p: RecordPayload)
  {
    PayloadDefect(manifest, limits, index, p).None? && KeyOf(p) in seen && seen[KeyOf(p)] == p
  }

  /** Without version ordering an asserted state is never replaced, so every accepted payload stays current. */
  lemma {:induction false} AcceptedStaysCurrent(s: State, ops: seq<Op>)
    requires Inv(s) && s.recordCount == 0 && !s.manifest.versionOrderingSupported
    ensures var t := Run(s, ops); var ps := AcceptedPayloads(Trace(s, ops));
            |ps| == t.recordCount && t.recordCount <= t.limits.maxRunRecords
            && forall p :: p in ps ==> Recognised(t.manifest, t.limits, t.properties, t.seenKeys, p)
    decreases |ops|
  {
    hide Step, Recognised;
    if ops != [] {
      var n := |ops| - 1;
      AcceptedStaysCurrent(s, ops[..n]);
      RunInv(s, ops[..n]);
      RunOnward(s, ops[..n]);
      var t := Run(s, ops[..n]);
      var e := Entry(ops[n], Step(t, ops[n]).1);
      var h := Trace(s, ops[..n]);
      assert (h + [e])[..|h|] == h;
      RecognisedStep(t, ops[n]);
      var u := Step(t, ops[n]).0;
      var before, after := AcceptedPayloads(h), AcceptedPayloads(h + [e]);
      forall p | p in after ensures Recognised(u.manifest, u.limits, u.properties, u.seenKeys, p) {
        if p in before {
          RecognisedPersists(t, ops[n], p);
        }
      }
    }
  }

  lemma RecognisedStep(s: State, op: Op)
    requires s.recordCount <= s.limits.maxRunRecords
    ensures var (t, reply) := Step(s, op); var e := Entry(op, reply);
            t.recordCount == s.recordCount + (if AcceptedRecordEntry(e) then 1 else 0)
            && t.recordCount <= t.limits.maxRunRecords
            && (AcceptedRecordEntry(e) ==>
                  Recognised(t.manifest, t.limits, t.properties, t.seenKeys, e.op.event.record.payload))
  {
    hide Accept, Charge, PayloadDefect, CheckpointDefect, Disposition;
    match op
    case DoAccept(event) => if Accept(s, event).1.Err? { AcceptRefused(s, event); } else { AcceptGranted(s, event); }
    case _ =>
  }

  lemma RecognisedPersists(s: State, op: Op, p: RecordPayload)
    requires !s.manifest.versionOrderingSupported
    requires Recognised(s.manifest, s.limits, s.properties, s.seenKeys, p)
    ensures var t := Step(s, op).0; Recognised(t.manifest, t.limits, t.properties, t.seenKeys, p)
  {
    hide Accept, Charge, PayloadDefect, CheckpointDefect;
    match op
    case DoAccept(event) => if Accept(s, event).1.Err? { AcceptRefused(s, event); } else { AcceptGranted(s, event); }
    case _ =>
  }

  /** The replay of payloads under another run id, numbered contiguously from one. */
  function ReplayOps(runId: string, ps: seq<RecordPayload>): seq<Op> {
    seq(|ps|, i requires 0 <= i < |ps| => DoAccept(RecordFrame(RecordEvent(runId, i + 1, ps[i]))))
  }

  predicate AllNoChange(h: seq<Entry>) {
    forall i :: 0 <= i < |h| ==> h[i].reply == Accepted(Ok(AcceptedRecord(i + 1, NoChange)))
  }

  /** A recognised record at the next sequence number is accepted and changes no current state. */
  lemma RecognisedRecord(s: State, r: RecordEvent)
    requires !s.rejected && s.pendingOffer.None? && s.finalCheckpointSeq.None? && s.recordCount < s.limits.maxRunRecords
    requires r.runId == s.runId && r.seq_ == s.lastSeq + 1
    requires Recognised(s.manifest, s.limits, s.properties, s.seenKeys, r.payload)
    ensures Accept(s, RecordFrame(r)) == (s.(lastSeq := r.seq_, recordCount := s.recordCount + 1,
                                             recordsBySeq := s.recordsBySeq + {r.seq_}),
                                          Ok(AcceptedRecord(r.seq_, NoChange)))
  {
    hide PayloadDefect;
    assert s.seenKeys[KeyOf(r.payload) := r.payload] == s.seenKeys;
    assert Accept(s, RecordFrame(r)) == AcceptRecord(s, r);
  }

  /** A session that recognises every payload answers NoChange throughout and keeps its state. */
  lemma {:induction false} RecognisedReplay(s: State, ps: seq<RecordPayload>)
    requires s.lastSeq == 0 && s.recordCount == 0 && !s.rejected
    requires s.pendingOffer.None? && s.finalCheckpointSeq.None?
    requires |ps| <= s.limits.maxRunRecords
    requires forall p :: p in ps ==> Recognised(s.manifest, s.limits, s.properties, s.seenKeys, p)
    ensures var ops := ReplayOps(s.runId, ps);
            Run(s, ops) == s.(lastSeq := |ps|, recordCount := |ps|, recordsBySeq := Run(s, ops).recordsBySeq)
            && |Trace(s, ops)| == |ps| && AllNoChange(Trace(s, ops))
    decreases |ps|
  {
    hide PayloadDefect, Recognised, Accept, RecordDurable, ResolveArtifacts, Commit, Withhold;
    var ops := ReplayOps(s.runId, ps);
    if ps != [] {
      var n := |ps| - 1;
      assert ops[..n] == ReplayOps(s.runId, ps[..n]);
      RecognisedReplay(s, ps[..n]);
      var t := Run(s, ops[..n]);
      var p := ps[n];
      assert p in ps;
      hide ReplayOps;
      RecognisedRecord(t, ops[n].event.record);
    }
  }

  /** Limits under which nothing is refused that the narrower ones allow. */
  predicate AtLeast(wide: Limits, narrow: Limits) {
    && narrow.maxRunRecords <= wide.maxRunRecords && narrow.maxBodyBytes <= wide.maxBodyBytes
    && narrow.maxPropertiesPerRecord <= wide.maxPropertiesPerRecord && narrow.maxListMembers <= wide.maxListMembers
    && narrow.maxPropertyValueBytes <= wide.maxPropertyValueBytes
    && narrow.maxArtifactsPerRecord <= wide.maxArtifactsPerRecord
  }

  lemma WiderAllows(manifest: Manifest, wide: Limits, narrow: Limits, index: Index, p: RecordPayload)
    requires AtLeast(wide, narrow) && PayloadDefect(manifest, narrow, index, p).None?
    ensures PayloadDefect(manifest, wide, index, p).None?
  {
    hide KindDefect, FirstRefusal;
    if p.properties.Some? {
      var ps := p.properties.value;
      assert WithinBounds(narrow, ps);
      assert WithinBounds(wide, ps);
    }
  }

  /** Seeded with a first run's current state, a session recognises everything that run accepted. */
  lemma SeedRecognises(s: State, ops: seq<Op>, request: CollectRequest)
    requires Inv(s) && s.recordCount == 0 && !s.manifest.versionOrderingSupported
    requires AtLeast(request.limits, s.limits)
    ensures var first := Run(s, ops); var ps := AcceptedPayloads(Trace(s, ops));
            |ps| == first.recordCount <= request.limits.maxRunRecords
            && forall p :: p in ps ==> Recognised(s.manifest, request.limits, s.properties, first.seenKeys, p)
  {
    AcceptedStaysCurrent(s, ops);
    RunOnward(s, ops);
    hide PayloadDefect;
    forall p | p in AcceptedPayloads(Trace(s, ops))
      ensures Recognised(s.manifest, request.limits, s.properties, Run(s, ops).seenKeys, p)
    {
      WiderAllows(s.manifest, request.limits, s.limits, s.properties, p);
    }
  }

  /**
   * Crash-and-replay is idempotent: seeded with a first run's current state, a later run that
   * re-emits everything the first one accepted, under its own run id and fresh contiguous
   * sequence numbers, accepts each record as a no-op and leaves that state unchanged.
   */
  lemma ReplayIsNoOp(s: State, ops: seq<Op>, request: CollectRequest)
    requires Inv(s) && s.recordCount == 0 && !s.manifest.versionOrderingSupported
    requires AtLeast(request.limits, s.limits)
    ensures var first := Run(s, ops);
            var ps := AcceptedPayloads(Trace(s, ops));
            var second := Initial(request, s.manifest, s.properties, first.seenKeys);
            var replay := ReplayOps(request.runId, ps);
            |Trace(second, replay)| == |ps| == first.recordCount
            && AllNoChange(Trace(second, replay))
            && Run(second, replay).seenKeys == first.seenKeys
            && Run(second, replay).recordCount == first.recordCount
            && !Run(second, replay).rejected
  {
    SeedRecognises(s, ops, request);
    RecognisedReplay(Initial(request, s.manifest, s.properties, Run(s, ops).seenKeys), AcceptedPayloads(Trace(s, ops)));
  }

  // ---- A replay with anything between its records ----

  predicate BringsRecord(op: Op) { op.DoAccept? && op.event.RecordFrame? }

  /** The payloads of the record frames among some operations, in order. */
  function Reemitted(ops: seq<Op>): seq<RecordPayload> {
    if ops == [] then []
    else
      var n := |ops| - 1;
      Reemitted(ops[..n]) + if BringsRecord(ops[n]) then [ops[n].event.record.payload] else []
  }

  /** When a record arrives in turn: nothing rejected, nothing pending or final, the next number, and room left. */
  predicate InTurn(s: State, r: RecordEvent) {
    && !s.rejected && s.pendingOffer.None? && s.finalCheckpointSeq.None?
    && r.runId == s.runId && r.seq_ == s.lastSeq + 1 && s.recordCount < s.limits.maxRunRecords
  }

  /** A record in turn changes nothing; one out of turn fails the run. */
  ghost predicate NoOpOrRefused(s: State, op: Op) {
    BringsRecord(op) ==>
      var r := op.event.record;
      var (t, reply) := Step(s, op);
      if InTurn(s, r) then reply == Accepted(Ok(AcceptedRecord(r.seq_, NoChange)))
      else reply.Accepted? && reply.event.Err? && t.rejected
  }

  lemma ReplayStep(s: State, op: Op)
    requires BringsRecord(op) ==>
               Recognised(s.manifest, s.limits, s.properties, s.seenKeys, op.event.record.payload)
    ensures var t := Step(s, op).0;
            t.seenKeys == s.seenKeys && t.manifest == s.manifest && t.limits == s.limits
            && t.properties == s.properties && (s.rejected ==> t.rejected)
            && (!t.rejected ==> t.recordCount == s.recordCount + if BringsRecord(op) then 1 else 0)
    ensures NoOpOrRefused(s, op)
  {
    hide Accept, Charge, Recognised, PayloadDefect, CheckpointDefect, Disposition;
    match op
    case DoAccept(event) =>
      if event.RecordFrame? && InTurn(s, event.record) {
        RecognisedRecord(s, event.record);
      } else if Accept(s, event).1.Err? {
        AcceptRefused(s, event);
      } else {
        AcceptGranted(s, event);
      }
    case _ =>
  }

  /** A session that recognises every payload keeps its current state, whatever comes between the records. */
  lemma {:induction false} RecognisedAmongOthers(s: State, ops: seq<Op>)
    requires forall p :: p in Reemitted(ops) ==> Recognised(s.manifest, s.limits, s.properties, s.seenKeys, p)
    ensures var t := Run(s, ops);
            t.seenKeys == s.seenKeys && t.manifest == s.manifest && t.limits == s.limits && t.properties == s.properties
            && (!t.rejected ==> !s.rejected && t.recordCount == s.recordCount + |Reemitted(ops)|)
    decreases |ops|
  {
    hide Step, Recognised, NoOpOrRefused;
    if ops != [] {
      var n := |ops| - 1;
      assert forall p :: p in Reemitted(ops[..n]) ==> p in Reemitted(ops);
      RecognisedAmongOthers(s, ops[..n]);
      if BringsRecord(ops[n]) { assert ops[n].event.record.payload in Reemitted(ops); }
      ReplayStep(Run(s, ops[..n]), ops[n]);
    }
  }

  lemma {:induction false} ReemittedAt(ops: seq<Op>, i: nat)
    requires i < |ops|
    ensures forall p :: p in Reemitted(ops[..i]) ==> p in Reemitted(ops)
    ensures BringsRecord(ops[i]) ==> ops[i].event.record.payload in Reemitted(ops)
    decreases |ops|
  {
    var n := |ops| - 1;
    if i < n {
      assert ops[..n][..i] == ops[..i];
      ReemittedAt(ops[..n], i);
    }
  }

  /** Each record of such a run is a no-op in its turn, and one that is not fails the run for good. */
  lemma RecordAmongOthers(s: State, ops: seq<Op>, i: nat)
    requires forall p :: p in Reemitted(ops) ==> Recognised(s.manifest, s.limits, s.properties, s.seenKeys, p)
    requires i < |ops|
    ensures var t := Run(s, ops[..i]);
            NoOpOrRefused(t, ops[i])
            && (BringsRecord(ops[i]) && !Run(s, ops).rejected ==> InTurn(t, ops[i].event.record))
  {
    ReemittedAt(ops, i);
    hide Step, Recognised, Reemitted;
    var early, late := ops[..i + 1], ops[i + 1..];
    assert early[..i] == ops[..i] && early + late == ops;
    RecognisedAmongOthers(s, ops[..i]);
    var t := Run(s, ops[..i]);
    ReplayStep(t, ops[i]);
    RunSplits(s, early, late);
    if Run(s, early).rejected { RejectionIsFinal(Run(s, early), late, Exited(0)); }
  }

  /**
   * The same with checkpoints, diagnostics and any other operation between the records, and the
   * payloads in any order, some of them left out or repeated: the current state never changes, every
   * record in turn is a no-op, and a later run that is not rejected took every one of them so.
   */
  lemma ReplayAmongOthersIsNoOp(s: State, ops: seq<Op>, request: CollectRequest, later: seq<Op>)
    requires Inv(s) && s.recordCount == 0 && !s.manifest.versionOrderingSupported
    requires AtLeast(request.limits, s.limits)
    requires forall p :: p in Reemitted(later) ==> p in AcceptedPayloads(Trace(s, ops))
    ensures var first := Run(s, ops);
            var second := Initial(request, s.manifest, s.properties, first.seenKeys);
            Run(second, later).seenKeys == first.seenKeys
            && (forall i :: 0 <= i < |later| ==> NoOpOrRefused(Run(second, later[..i]), later[i]))
            && (!Run(second, later).rejected ==>
                  Run(second, later).recordCount == |Reemitted(later)|
                  && forall i :: 0 <= i < |later| && BringsRecord(later[i]) ==>
                       InTurn(Run(second, later[..i]), later[i].event.record))
  {
    hide Recognised, NoOpOrRefused, Step;
    SeedRecognises(s, ops, request);
    var second := Initial(request, s.manifest, s.properties, Run(s, ops).seenKeys);
    RecognisedAmongOthers(second, later);
    forall i | 0 <= i < |later|
      ensures NoOpOrRefused(Run(second, later[..i]), later[i])
      ensures BringsRecord(later[i]) && !Run(second, later).rejected ==>
                InTurn(Run(second, later[..i]), later[i].event.record)
    {
      RecordAmongOthers(second, later, i);
    }
  }
}
