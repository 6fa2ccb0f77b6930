/**
 * Whole runs: any interleaving of session operations, the invariant every state keeps,
 * and what a run's history says about its cursor, its counts and its replay.
 */
module SessionRuns {
  import opened Wrappers
  import opened Codes
  import opened Manifests
  import opened Protocol
  import opened Session

  datatype Op =
    | DoAccept(event: FieldEvent)
    | DoDurable(seq_: nat)
    | DoResolve(results: seq<ArtifactResult>)
    | DoCommit(offer: CheckpointOffer)
    | DoWithhold(offer: CheckpointOffer)
    | DoNoteRejection

  datatype Reply =
    | Accepted(event: Result<AcceptedEvent, RejectionCode>)
    | Committed(cursor: Result<CommittedCursor, CommitRefusal>)
    | WithholdReply(refusal: Option<CommitRefusal>)
    | ResolvedAll(outcomes: Result<seq<ArtifactOutcome>, RejectionCode>)
    | Done

  datatype Entry = Entry(op: Op, reply: Reply)

  function Step(s: State, op: Op): (State, Reply) {
    match op
    case DoAccept(event) => var (t, r) := Accept(s, event); (t, Accepted(r))
    case DoDurable(q) => (RecordDurable(s, q), Done)
    case DoResolve(results) => var (t, r) := ResolveArtifacts(s, results); (t, ResolvedAll(r))
    case DoCommit(offer) => var (t, r) := Commit(s, offer); (t, Committed(r))
    case DoWithhold(offer) => var (t, r) := Withhold(s, offer); (t, WithholdReply(r))
    case DoNoteRejection => (NoteRejection(s), Done)
  }

  function Run(s: State, ops: seq<Op>): State {
    if ops == [] then s else Step(Run(s, ops[..|ops| - 1]), ops[|ops| - 1]).0
  }

  function Trace(s: State, ops: seq<Op>): seq<Entry> {
    if ops == [] then []
    else
      var n := |ops| - 1;
      Trace(s, ops[..n]) + [Entry(ops[n], Step(Run(s, ops[..n]), ops[n]).1)]
  }

  // ---- The invariant ----

  predicate CoveredDurable(s: State, covers: nat) {
    forall q :: q in s.recordsBySeq && q <= covers ==> q in s.durableSeqs
  }

  /** Ties the sequence counter, both coverages, both sequence sets and the pending offer together. */
  predicate Inv(s: State) {
    && (forall q :: q in s.recordsBySeq ==> 0 < q <= s.lastSeq)
    && |s.recordsBySeq| == s.recordCount
    && s.lastCommittedCoverage <= s.lastCheckpointCoverage
    && s.lastCheckpointCoverage <= s.lastSeq
    && (s.committed.None? ==> s.lastCommittedCoverage == 0)
    && (s.committed.Some? ==> s.committed.value.coversThrough == s.lastCommittedCoverage
                              && CoveredDurable(s, s.lastCommittedCoverage))
    && (s.pendingOffer.Some? ==>
          var o := s.pendingOffer.value;
          o.coversThrough == s.lastCheckpointCoverage && o.seq_ == s.lastSeq
          && (o.isFinal <==> s.finalCheckpointSeq == Some(o.seq_)))
    && (s.finalCheckpointSeq.Some? ==> s.finalCheckpointSeq.value == s.lastSeq)
    && (s.finalClaimCommitted ==> s.finalCheckpointSeq.Some? && s.committed.Some?
                                  && s.lastCommittedCoverage == s.lastCheckpointCoverage)
    && (s.finalClaim.Some? ==> s.mode == Snapshot && s.snapshotScope == Some(s.finalClaim.value.scope))
  }

  lemma InitialInv(request: CollectRequest, manifest: Manifest, index: Index, seen: map<SourceKey, Fingerprint>)
    ensures Inv(Initial(request, manifest, index, seen))
  {
  }

  /** A refused event changes nothing but the rejection latch and possibly the sequence counter. */
  lemma AcceptRefused(s: State, event: FieldEvent)
    requires Accept(s, event).1.Err?
    ensures var t := Accept(s, event).0;
            t == s.(lastSeq := t.lastSeq, rejected := true)
            && s.lastSeq <= t.lastSeq
            && (s.pendingOffer.Some? || s.finalCheckpointSeq.Some? ==> t.lastSeq == s.lastSeq)
  {
    hide PayloadDefect, CheckpointDefect, Disposition;
    match event
    case ManifestFrame(_) =>
    case RecordFrame(record) =>
      assert !s.rejected && s.pendingOffer.None? ==> Accept(s, event) == AcceptRecord(s, record);
    case CheckpointFrame(c) =>
      assert !s.rejected && s.pendingOffer.None? ==> Accept(s, event) == AcceptCheckpoint(s, c);
    case DiagnosticFrame(d) =>
      assert !s.rejected && s.pendingOffer.None? ==> Accept(s, event) == AcceptDiagnostic(s, d);
  }

  /** An accepted event takes the next sequence number and updates only its own part of the session. */
  lemma AcceptGranted(s: State, event: FieldEvent)
    requires Accept(s, event).1.Ok?
    ensures !s.rejected && s.pendingOffer.None? && s.finalCheckpointSeq.None? && !event.ManifestFrame?
    ensures event.RecordFrame? ==>
              var r := event.record;
              r.seq_ == s.lastSeq + 1 && r.runId == s.runId && s.recordCount < s.limits.maxRunRecords
              && PayloadDefect(s.manifest, s.limits, s.properties, r.payload).None?
              && Disposition(s, r.payload).Some?
              && Accept(s, event).1 == Ok(AcceptedRecord(r.seq_, Disposition(s, r.payload).value))
              && Accept(s, event).0 == s.(lastSeq := r.seq_, seenKeys := s.seenKeys[KeyOf(r.payload) := r.payload],
                                          recordCount := s.recordCount + 1, recordsBySeq := s.recordsBySeq + {r.seq_})
    ensures event.CheckpointFrame? ==>
              var c := event.checkpoint;
              c.seq_ == s.lastSeq + 1 && CheckpointDefect(s, c).None?
              && Accept(s, event).1 == Ok(AcceptedCheckpoint(OfferOf(c)))
              && Accept(s, event).0 == s.(lastSeq := c.seq_,
                                          finalClaim := if c.snapshot.Some? then c.snapshot else s.finalClaim,
                                          lastCheckpointCoverage := c.coversThrough,
                                          finalCheckpointSeq := if c.isFinal then Some(c.seq_) else None,
                                          pendingOffer := Some(OfferOf(c)))
    ensures event.DiagnosticFrame? ==>
              var d := event.diagnostic;
              d.seq_ == s.lastSeq + 1
              && Accept(s, event).1 == Ok(AcceptedDiagnostic(d.seq_, d.severity))
              && Accept(s, event).0 == s.(lastSeq := d.seq_, diagnosticCount := s.diagnosticCount + 1,
                                          errorDiagnostic := s.errorDiagnostic || d.severity == Error)
  {
    hide PayloadDefect;
    match event
    case ManifestFrame(_) =>
    case RecordFrame(record) => assert Accept(s, event) == AcceptRecord(s, record);
    case CheckpointFrame(c) =>
      assert Accept(s, event) == AcceptCheckpoint(s, c);
      assert NewlyCovered(s, c.coversThrough) == NewlyCovered(Admit(s, c.runId, c.seq_).0, c.coversThrough);
    case DiagnosticFrame(d) => assert Accept(s, event) == AcceptDiagnostic(s, d);
  }

  lemma AcceptInv(s: State, event: FieldEvent)
    requires Inv(s)
    ensures Inv(Accept(s, event).0)
  {
    hide Accept, PayloadDefect, Disposition;
    if Accept(s, event).1.Err? { AcceptRefused(s, event); } else { AcceptGranted(s, event); }
  }

  /** An accepted checkpoint lies below its own sequence number and its claim names the requested scope. */
  lemma CheckpointFacts(s: State, event: FieldEvent)
    ensures event.CheckpointFrame? && Accept(s, event).1.Ok? ==>
              var c := event.checkpoint;
              s.lastCheckpointCoverage <= c.coversThrough < c.seq_ && c.seq_ == s.lastSeq + 1
              && c.recordsCovered == |NewlyCovered(s, c.coversThrough)|
              && (c.snapshot.Some? ==> s.mode == Snapshot && s.snapshotScope == Some(c.snapshot.value.scope))
  {
    hide Accept, PayloadDefect, Disposition;
    if event.CheckpointFrame? && Accept(s, event).1.Ok? { AcceptGranted(s, event); }
  }

  lemma CommitInv(s: State, offer: CheckpointOffer)
    requires Inv(s)
    ensures Inv(Commit(s, offer).0)
  {
    if Commit(s, offer).1.Ok? { UndurableIsGap(s, offer.coversThrough); }
  }

  lemma UndurableIsGap(s: State, covers: nat)
    ensures Undurable(s, covers) == {} <==> CoveredDurable(s, covers)
  {
    if Undurable(s, covers) == {} {
      forall q | q in s.recordsBySeq && q <= covers ensures q in s.durableSeqs {
        assert q !in Undurable(s, covers);
      }
    }
  }

  lemma ResolveInv(s: State, results: seq<ArtifactResult>)
    requires Inv(s)
    ensures Inv(ResolveArtifacts(s, results).0)
  {
    hide Charge;
  }

  lemma DurableInv(s: State, q: nat)
    requires Inv(s)
    ensures Inv(RecordDurable(s, q))
  {
  }

  lemma StepInv(s: State, op: Op)
    requires Inv(s)
    ensures Inv(Step(s, op).0)
  {
    hide Accept, Commit, ResolveArtifacts, RecordDurable;
    match op
    case DoAccept(event) => AcceptInv(s, event);
    case DoDurable(q) => DurableInv(s, q);
    case DoResolve(results) => ResolveInv(s, results);
    case DoCommit(offer) => CommitInv(s, offer);
    case _ =>
  }

  /** Every state any interleaving of operations reaches satisfies the invariant. */
  lemma {:induction false} RunInv(s: State, ops: seq<Op>)
    requires Inv(s)
    ensures Inv(Run(s, ops))
  {
    if ops != [] {
      RunInv(s, ops[..|ops| - 1]);
      StepInv(Run(s, ops[..|ops| - 1]), ops[|ops| - 1]);
    }
  }

  // ---- Safety of the cursor, now and forever ----

  /** What no operation ever takes back. */
  predicate Onward(s: State, t: State) {
    && s.lastSeq <= t.lastSeq
    && s.recordsBySeq <= t.recordsBySeq
    && s.durableSeqs <= t.durableSeqs
    && (s.rejected ==> t.rejected)
    && s.lastCommittedCoverage <= t.lastCommittedCoverage
    && s.lastCheckpointCoverage <= t.lastCheckpointCoverage
    && (s.committed.Some? ==> t.committed.Some?)
    && (forall q :: q in t.recordsBySeq && q !in s.recordsBySeq ==> q > s.lastSeq)
    && t.manifest == s.manifest && t.properties == s.properties && t.mode == s.mode
    && t.snapshotScope == s.snapshotScope && t.windowed == s.windowed && t.limits == s.limits && t.runId == s.runId
  }

  lemma AcceptOnward(s: State, event: FieldEvent)
    requires Inv(s)
    ensures Onward(s, Accept(s, event).0)
  {
    hide Accept, PayloadDefect, Disposition;
    if Accept(s, event).1.Err? { AcceptRefused(s, event); } else { AcceptGranted(s, event); }
  }

  lemma CommitOnward(s: State, offer: CheckpointOffer)
    requires Inv(s)
    ensures Onward(s, Commit(s, offer).0)
  {
    hide Undurable;
  }

  lemma StepOnward(s: State, op: Op)
    requires Inv(s)
    ensures Onward(s, Step(s, op).0)
  {
    hide Accept, Commit, Charge;
    match op
    case DoAccept(event) => AcceptOnward(s, event);
    case DoCommit(offer) => CommitOnward(s, offer);
    case _ =>
  }

  lemma {:induction false} RunOnward(s: State, ops: seq<Op>)
    requires Inv(s)
    ensures Onward(s, Run(s, ops))
  {
    if ops != [] {
      var n := |ops| - 1;
      RunOnward(s, ops[..n]);
      RunInv(s, ops[..n]);
      StepOnward(Run(s, ops[..n]), ops[n]);
    }
  }

  lemma {:induction false} RunSplits(s: State, early: seq<Op>, late: seq<Op>)
    ensures Run(s, early + late) == Run(Run(s, early), late)
  {
    if late == [] {
      assert early + late == early;
    } else {
      var n := |late| - 1;
      assert (early + late)[..|early + late| - 1] == early + late[..n];
      RunSplits(s, early, late[..n]);
    }
  }

  /** The sequence numbers whose durable writes a run reports as completed. */
  function MarkedDurable(ops: seq<Op>): set<nat> {
    set op | op in ops && op.DoDurable? :: op.seq_
  }

  lemma MarkedSnoc(ops: seq<Op>, op: Op)
    ensures MarkedDurable(ops + [op]) == MarkedDurable(ops) + if op.DoDurable? then {op.seq_} else {}
  {
    forall q | q in MarkedDurable(ops) + (if op.DoDurable? then {op.seq_} else {})
      ensures q in MarkedDurable(ops + [op])
    {
      if q in MarkedDurable(ops) {
        var o :| o in ops && o.DoDurable? && o.seq_ == q;
        assert o in ops + [op];
      } else {
        assert op in ops + [op];
      }
    }
  }

  lemma StepDurable(s: State, op: Op)
    ensures Step(s, op).0.durableSeqs == s.durableSeqs + if op.DoDurable? then {op.seq_} else {}
  {
    hide Accept, Charge;
    if op.DoAccept? {
      if Accept(s, op.event).1.Err? { AcceptRefused(s, op.event); } else { AcceptGranted(s, op.event); }
    }
  }

  /** Nothing is durable but what was at the start and what the run itself reported. */
  lemma {:induction false} DurableIsHistory(s: State, ops: seq<Op>)
    ensures Run(s, ops).durableSeqs == s.durableSeqs + MarkedDurable(ops)
  {
    hide Step, MarkedDurable;
    if ops == [] {
      NothingMarked();
    } else {
      var n := |ops| - 1;
      DurableIsHistory(s, ops[..n]);
      StepDurable(Run(s, ops[..n]), ops[n]);
      MarkedSnoc(ops[..n], ops[n]);
      assert ops == ops[..n] + [ops[n]];
    }
  }

  lemma NothingMarked()
    ensures MarkedDurable([]) == {}
  {
  }

  /**
   * The one invariant: whenever a cursor is committed, every accepted record it covers is
   * durable, and no later operation can undo that or slip a record under the cursor. Durable
   * means that the run itself reported the write, unless it already was at the start.
   */
  lemma CursorNeverPassesUndurableWrite(s: State, early: seq<Op>, late: seq<Op>)
    requires Inv(s)
    ensures var now := Run(s, early); var after := Run(s, early + late);
            now.committed.Some? ==>
              CoveredDurable(now, now.committed.value.coversThrough)
              && CoveredDurable(after, now.committed.value.coversThrough)
              && (forall q :: q in after.recordsBySeq && q <= now.committed.value.coversThrough ==>
                    q in now.recordsBySeq)
              && after.committed.Some?
              && now.committed.value.coversThrough <= after.committed.value.coversThrough
              && (forall q :: q in now.recordsBySeq && q <= now.committed.value.coversThrough ==>
                    q in s.durableSeqs || q in MarkedDurable(early))
  {
    hide MarkedDurable;
    DurableIsHistory(s, early);
    RunInv(s, early);
    RunSplits(s, early, late);
    RunOnward(Run(s, early), late);
    RunInv(Run(s, early), late);
  }

  // ---- When a commit succeeds ----

  /** For the pending offer of an unrejected session: exactly when everything it covers is durable. */
  lemma CommitExactlyWhenDurable(s: State, ops: seq<Op>, offer: CheckpointOffer)
    requires Inv(s)
    requires var t := Run(s, ops); t.pendingOffer == Some(offer) && !t.rejected
    ensures var t := Run(s, ops);
            (Commit(t, offer).1.Ok? <==> CoveredDurable(t, offer.coversThrough))
            && (Commit(t, offer).1.Ok? || Commit(t, offer).1.error.RecordsNotDurable?)
  {
    RunInv(s, ops);
    UndurableIsGap(Run(s, ops), offer.coversThrough);
  }

  /** No reachable session ever answers that a commit would move the cursor backwards. */
  lemma NotMonotonicIsUnreachable(s: State, ops: seq<Op>, offer: CheckpointOffer)
    requires Inv(s)
    ensures var r := Commit(Run(s, ops), offer).1; r.Err? ==> !r.error.NotMonotonic?
  {
    RunInv(s, ops);
  }

  /** Only the pending offer can be committed, and only while nothing was rejected. */
  lemma CommitAnswers(s: State, offer: CheckpointOffer)
    ensures var r := Commit(s, offer).1;
            (r == Err(UnknownOffer) <==> s.pendingOffer != Some(offer))
            && (r == Err(RunHasRejectedRecord) <==> s.pendingOffer == Some(offer) && s.rejected)
            && Withhold(s, offer) == (if s.pendingOffer == Some(offer) then s.(pendingOffer := None) else s,
                                      if s.pendingOffer == Some(offer) then None else Some(UnknownOffer))
  {
  }

  /** A refused commit names a record: the first undurable one follows the reported watermark. */
  lemma RefusalNamesFirstGap(s: State, offer: CheckpointOffer)
    requires Inv(s)
    ensures var r := Commit(s, offer).1;
            r.Err? && r.error.RecordsNotDurable? ==>
              var first := r.error.durableThrough + 1;
              first in s.recordsBySeq && first !in s.durableSeqs && first <= offer.coversThrough
              && CoveredDurable(s, r.error.durableThrough)
  {
    var r := Commit(s, offer).1;
    if r.Err? && r.error.RecordsNotDurable? {
      var gap := Undurable(s, offer.coversThrough);
      var first := Least(gap);
      assert first in gap;
      forall q | q in s.recordsBySeq && q <= first - 1 ensures q in s.durableSeqs {
        assert q !in gap;
      }
    }
  }

  /** The highest durable record with no undurable record below it, or zero. */
  ghost predicate IsDurableThrough(s: State, w: nat) {
    && (w == 0 || w in s.recordsBySeq)
    && CoveredDurable(s, w)
    && forall q :: q in s.recordsBySeq && CoveredDurable(s, q) ==> q <= w
  }

  /** The watermark and the commit guard agree, up to sequence numbers that are not records. */
  lemma WatermarkAgreesWithGuard(s: State, w: nat, covers: nat)
    requires Inv(s) && IsDurableThrough(s, w)
    ensures CoveredDurable(s, covers) <==> forall q :: q in s.recordsBySeq && q <= covers ==> q <= w
  {
    if CoveredDurable(s, covers) {
      forall q | q in s.recordsBySeq && q <= covers ensures q <= w {
        assert CoveredDurable(s, q);
      }
    }
  }

  // ---- After a rejection ----

  lemma StepFrozen(s: State, op: Op)
    requires s.rejected
    ensures var t := Step(s, op).0;
            t.rejected && t.committed == s.committed && t.lastCommittedCoverage == s.lastCommittedCoverage
            && t.recordCount == s.recordCount && t.diagnosticCount == s.diagnosticCount
            && t.recordsBySeq == s.recordsBySeq && t.seenKeys == s.seenKeys
  {
  }

  /** Once anything was rejected the cursor, counts and seen keys are frozen, and the report says so. */
  lemma {:induction false} RejectionIsFinal(s: State, ops: seq<Op>, exit: ExitObservation)
    requires s.rejected
    ensures var t := Run(s, ops);
            t.rejected && t.committed == s.committed && t.lastCommittedCoverage == s.lastCommittedCoverage
            && t.recordCount == s.recordCount && t.diagnosticCount == s.diagnosticCount
            && t.recordsBySeq == s.recordsBySeq && t.seenKeys == s.seenKeys
    ensures var report := Finish(Run(s, ops), exit);
            report.outcome == RunFailed && report.deletion.Refused? && ProtocolViolation in report.deletion.reasons
            && report.committedCursor == s.committed && report.recordsAccepted == s.recordCount
    decreases |ops|
  {
    if ops != [] {
      var n := |ops| - 1;
      RejectionIsFinal(s, ops[..n], exit);
      StepFrozen(Run(s, ops[..n]), ops[n]);
    }
    StandingExactly(Run(s, ops), exit, ALL_REFUSALS);
    assert ALL_REFUSALS[7] == ProtocolViolation;
    assert ProtocolViolation in Standing(Run(s, ops), exit, ALL_REFUSALS);
  }

  lemma {:induction false} StandingExactly(s: State, exit: ExitObservation, candidates: seq<DeletionRefusal>)
    ensures forall r :: r in Standing(s, exit, candidates) <==> r in candidates && Stands(s, exit, r)
  {
    if candidates != [] { StandingExactly(s, exit, candidates[1..]); }
  }

  // ---- Conservation of coverage ----

  predicate AcceptedRecordEntry(e: Entry) {
    e.op.DoAccept? && e.op.event.RecordFrame? && e.reply.Accepted? && e.reply.event.Ok?
  }

  predicate AcceptedCheckpointEntry(e: Entry) {
    e.op.DoAccept? && e.op.event.CheckpointFrame? && e.reply.Accepted? && e.reply.event.Ok?
  }

  /** The sequence numbers of the records a trace shows accepted. */
  function RecordSeqs(trace: seq<Entry>): set<nat> {
    set e | e in trace && AcceptedRecordEntry(e) :: e.op.event.record.seq_
  }

  function RecordTotal(trace: seq<Entry>): nat {
    if trace == [] then 0
    else RecordTotal(trace[..|trace| - 1]) + if AcceptedRecordEntry(trace[|trace| - 1]) then 1 else 0
  }

  /** The sum of `records_covered` over all accepted checkpoints. */
  function CoveredTotal(trace: seq<Entry>): nat {
    if trace == [] then 0
    else
      var e := trace[|trace| - 1];
      CoveredTotal(trace[..|trace| - 1])
      + if AcceptedCheckpointEntry(e) then e.op.event.checkpoint.recordsCovered else 0
  }

  /** The coverage of the most recent accepted checkpoint, or zero. */
  function LastCoverage(trace: seq<Entry>): nat {
    if trace == [] then 0
    else
      var e := trace[|trace| - 1];
      if AcceptedCheckpointEntry(e) then e.op.event.checkpoint.coversThrough else LastCoverage(trace[..|trace| - 1])
  }

  function UpTo(seqs: set<nat>, bound: nat): set<nat> {
    set q | q in seqs && q <= bound
  }

  lemma SplitCount(seqs: set<nat>, lower: nat, upper: nat)
    requires lower <= upper
    ensures |UpTo(seqs, upper)| == |UpTo(seqs, lower)| + |(set q | q in seqs && lower < q <= upper)|
  {
    var mid := set q | q in seqs && lower < q <= upper;
    assert UpTo(seqs, upper) == UpTo(seqs, lower) + mid;
  }

  /** One more record lands above every coverage so far. */
  lemma RecordStep(s: State, event: FieldEvent)
    requires Inv(s) && event.RecordFrame?
    ensures var (t, r) := Accept(s, event);
            if r.Ok? then
              event.record.seq_ == s.lastSeq + 1
              && t.recordsBySeq == s.recordsBySeq + {event.record.seq_} && t.recordCount == s.recordCount + 1
              && t.lastCheckpointCoverage == s.lastCheckpointCoverage
              && UpTo(t.recordsBySeq, s.lastCheckpointCoverage) == UpTo(s.recordsBySeq, s.lastCheckpointCoverage)
            else t.recordsBySeq == s.recordsBySeq && t.recordCount == s.recordCount
                 && t.lastCheckpointCoverage == s.lastCheckpointCoverage
  {
    hide Accept, PayloadDefect, Disposition;
    if Accept(s, event).1.Err? { AcceptRefused(s, event); } else { AcceptGranted(s, event); }
  }

  lemma NonRecordStep(s: State, op: Op)
    requires !(op.DoAccept? && op.event.RecordFrame?)
    ensures Step(s, op).0.recordsBySeq == s.recordsBySeq && Step(s, op).0.recordCount == s.recordCount
    ensures !(op.DoAccept? && op.event.CheckpointFrame? && Accept(s, op.event).1.Ok?) ==>
              Step(s, op).0.lastCheckpointCoverage == s.lastCheckpointCoverage
    ensures op.DoAccept? && op.event.CheckpointFrame? && Accept(s, op.event).1.Ok? ==>
              Step(s, op).0.lastCheckpointCoverage == op.event.checkpoint.coversThrough
  {
    hide Accept, Charge, CheckpointDefect, PayloadDefect, Disposition;
    if op.DoAccept? {
      if Accept(s, op.event).1.Err? { AcceptRefused(s, op.event); } else { AcceptGranted(s, op.event); }
    }
  }

  lemma RecordSeqsSnoc(trace: seq<Entry>, e: Entry)
    ensures RecordSeqs(trace + [e])
         == RecordSeqs(trace) + if AcceptedRecordEntry(e) then {e.op.event.record.seq_} else {}
  {
    forall q | q in RecordSeqs(trace) + (if AcceptedRecordEntry(e) then {e.op.event.record.seq_} else {})
      ensures q in RecordSeqs(trace + [e])
    {
      if q in RecordSeqs(trace) {
        var f :| f in trace && AcceptedRecordEntry(f) && f.op.event.record.seq_ == q;
        assert f in trace + [e];
      } else {
        assert e in trace + [e];
      }
    }
  }

  predicate Conserved(t: State, h: seq<Entry>) {
    && t.recordsBySeq == RecordSeqs(h) && t.recordCount == RecordTotal(h)
    && t.lastCheckpointCoverage == LastCoverage(h)
    && CoveredTotal(h) == |UpTo(t.recordsBySeq, t.lastCheckpointCoverage)|
  }

  lemma {:induction false} RunConserved(s: State, ops: seq<Op>)
    requires Inv(s) && s.recordsBySeq == {} && s.lastCheckpointCoverage == 0
    ensures Conserved(Run(s, ops), Trace(s, ops))
    decreases |ops|
  {
    hide Conserved, Inv, Step;
    if ops == [] {
      NothingCovered(s);
    } else {
      var n := |ops| - 1;
      RunConserved(s, ops[..n]);
      RunInv(s, ops[..n]);
      ConservedStep(s, ops[..n], ops[n]);
      assert ops == ops[..n] + [ops[n]];
    }
  }

  lemma NothingCovered(s: State)
    requires Inv(s) && s.recordsBySeq == {} && s.lastCheckpointCoverage == 0
    ensures Conserved(s, [])
  {
    assert RecordSeqs([]) == {} && UpTo({}, 0) == {};
  }

  /**
   * Nothing is covered twice or lost between checkpoints: over the whole history the declared
   * counts add up to exactly the accepted records at or below the last coverage.
   */
  lemma CoverageIsConserved(s: State, ops: seq<Op>)
    requires Inv(s) && s.recordsBySeq == {} && s.lastCheckpointCoverage == 0
    ensures var t := Run(s, ops); var h := Trace(s, ops);
            t.recordsBySeq == RecordSeqs(h)
            && t.recordCount == RecordTotal(h) == |RecordSeqs(h)|
            && t.lastCheckpointCoverage == LastCoverage(h)
            && CoveredTotal(h) == |UpTo(RecordSeqs(h), LastCoverage(h))|
            && |RecordSeqs(h)| - CoveredTotal(h) == |RecordSeqs(h) - UpTo(RecordSeqs(h), LastCoverage(h))|
  {
    RunConserved(s, ops);
    RunInv(s, ops);
    hide Run, Trace, RecordSeqs, UpTo;
    Remainder(Run(s, ops).recordsBySeq, Run(s, ops).lastCheckpointCoverage);
  }

  lemma Remainder(seqs: set<nat>, bound: nat)
    ensures |seqs| - |UpTo(seqs, bound)| == |seqs - UpTo(seqs, bound)|
  {
    assert seqs == UpTo(seqs, bound) + (seqs - UpTo(seqs, bound));
  }

  lemma ConservedStep(s: State, ops: seq<Op>, op: Op)
    requires Inv(Run(s, ops)) && Conserved(Run(s, ops), Trace(s, ops))
    ensures Conserved(Run(s, ops + [op]), Trace(s, ops + [op]))
  {
    hide Step, Accept, UpTo, RecordSeqs;
    var t, h := Run(s, ops), Trace(s, ops);
    var (u, reply) := Step(t, op);
    var e := Entry(op, reply);
    assert (ops + [op])[..|ops|] == ops;
    assert (h + [e])[..|h|] == h;
    assert Run(s, ops + [op]) == u && Trace(s, ops + [op]) == h + [e];
    RecordSeqsSnoc(h, e);
    StepReply(t, op);
    if op.DoAccept? && op.event.RecordFrame? {
      RecordStep(t, op.event);
    } else {
      NonRecordStep(t, op);
      if AcceptedCheckpointEntry(e) {
        CheckpointFacts(t, op.event);
        SplitCount(t.recordsBySeq, t.lastCheckpointCoverage, op.event.checkpoint.coversThrough);
      }
    }
  }

  lemma StepReply(s: State, op: Op)
    ensures op.DoAccept? ==> Step(s, op) == (Accept(s, op.event).0, Accepted(Accept(s, op.event).1))
    ensures !op.DoAccept? ==> !Step(s, op).1.Accepted?
  {
  }
}
