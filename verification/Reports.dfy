/** What a finished run reports, told from the request and the run's history alone. */
module Reports {
  import opened Wrappers
  import opened Manifests
  import opened Protocol
  import opened Session
  import opened SessionRuns
  import opened DeletionAuthority
  import CollectSessions
  import Sorting

  // ---- What a history shows ----

  /** The cursor a successful commit makes current: the offer's text, format version and coverage. */
  function CommittedAt(e: Entry): Option<CommittedCursor> {
    if e.op.DoCommit? && e.reply.Committed? && e.reply.cursor.Ok?
    then Some(CommittedCursor(e.op.offer.cursor, e.op.offer.cursorFormatVersion, e.op.offer.coversThrough))
    else None
  }

  /** The cursor of the most recent successful commit. */
  function LastCommitted(h: seq<Entry>): Option<CommittedCursor> {
    if h == [] then None
    else if CommittedAt(h[|h| - 1]).Some? then CommittedAt(h[|h| - 1])
    else LastCommitted(h[..|h| - 1])
  }

  predicate DiagnosticAt(e: Entry) {
    e.op.DoAccept? && e.op.event.DiagnosticFrame? && e.reply.Accepted? && e.reply.event.Ok?
  }

  function DiagnosticTotal(h: seq<Entry>): nat {
    if h == [] then 0 else DiagnosticTotal(h[..|h| - 1]) + if DiagnosticAt(h[|h| - 1]) then 1 else 0
  }

  /** The offer a checkpoint makes, member by member. */
  predicate Offers(c: CheckpointEvent, o: CheckpointOffer) {
    && o.seq_ == c.seq_ && o.cursor == c.cursor && o.cursorFormatVersion == c.cursorFormatVersion
    && o.coversThrough == c.coversThrough && o.isFinal == c.isFinal
  }

  /** Some checkpoint the history shows accepted made this offer. */
  predicate Offered(h: seq<Entry>, o: CheckpointOffer) {
    exists e :: e in h && AcceptedCheckpointEntry(e) && Offers(e.op.event.checkpoint, o)
  }

  // ---- The session's cursor and counts are its history ----

  predicate Recounted(s: State, h: seq<Entry>) {
    && s.committed == LastCommitted(h)
    && s.diagnosticCount == DiagnosticTotal(h)
    && (s.pendingOffer.Some? ==> Offered(h, s.pendingOffer.value))
  }

  /** One operation, in the terms of its own trace entry. */
  lemma RecountStep(s: State, op: Op)
    ensures var (t, reply) := Step(s, op); var e := Entry(op, reply);
            && t.committed == (if CommittedAt(e).Some? then CommittedAt(e) else s.committed)
            && t.diagnosticCount == s.diagnosticCount + (if DiagnosticAt(e) then 1 else 0)
            && (t.pendingOffer.Some? ==>
                  t.pendingOffer == s.pendingOffer
                  || (AcceptedCheckpointEntry(e) && Offers(op.event.checkpoint, t.pendingOffer.value)))
            && (CommittedAt(e).Some? ==> s.pendingOffer == Some(op.offer) && reply.cursor.value == CommittedAt(e).value)
  {
    hide Charge, PayloadDefect, CheckpointDefect, Disposition, Undurable;
    match op
    case DoAccept(event) =>
      if Accept(s, event).1.Err? { AcceptRefused(s, event); } else { AcceptGranted(s, event); }
      hide Accept;
    case _ =>
  }

  lemma OfferedStays(h: seq<Entry>, e: Entry, o: CheckpointOffer)
    ensures Offered(h, o) ==> Offered(h + [e], o)
    ensures AcceptedCheckpointEntry(e) && Offers(e.op.event.checkpoint, o) ==> Offered(h + [e], o)
  {
    assert e in h + [e];
    if Offered(h, o) {
      var f :| f in h && AcceptedCheckpointEntry(f) && Offers(f.op.event.checkpoint, o);
      assert f in h + [e];
    }
  }

  lemma {:induction false} RunRecounted(s: State, ops: seq<Op>)
    requires s.committed.None? && s.diagnosticCount == 0 && s.pendingOffer.None?
    ensures Recounted(Run(s, ops), Trace(s, ops))
    decreases |ops|
  {
    hide Step, Offered, CommittedAt, DiagnosticAt;
    if ops != [] {
      var n := |ops| - 1;
      RunRecounted(s, ops[..n]);
      var t, h := Run(s, ops[..n]), Trace(s, ops[..n]);
      var (u, reply) := Step(t, ops[n]);
      var e := Entry(ops[n], reply);
      RecountStep(t, ops[n]);
      assert (h + [e])[..|h|] == h;
      if u.pendingOffer.Some? { OfferedStays(h, e, u.pendingOffer.value); }
    }
  }

  /**
   * Over any run, the committed cursor is the text, format version and coverage of the most recent
   * successfully committed offer, and every commit that succeeds returns those of its own offer,
   * which a checkpoint accepted earlier in the run made.
   */
  lemma CommittedIsHistory(request: CollectRequest, manifest: Manifest, index: Index,
                           seen: map<SourceKey, Fingerprint>, ops: seq<Op>, i: nat)
    requires i < |ops|
    ensures var s := Initial(request, manifest, index, seen);
            Run(s, ops).committed == LastCommitted(Trace(s, ops))
            && var (t, reply) := Step(Run(s, ops[..i]), ops[i]);
               var made := CommittedAt(Entry(ops[i], reply));
               made.Some? ==> reply.cursor == Ok(made.value) && Offered(Trace(s, ops[..i]), ops[i].offer)
  {
    hide Step, Offered;
    var s := Initial(request, manifest, index, seen);
    RunRecounted(s, ops);
    RunRecounted(s, ops[..i]);
    RecountStep(Run(s, ops[..i]), ops[i]);
  }

  // ---- The report ----

  /** When each reason stands against deletion, from the request, the manifest, the history and the exit. */
  predicate Objects(request: CollectRequest, manifest: Manifest, h: seq<Entry>, exit: ExitObservation,
                    reason: DeletionRefusal)
  {
    var claim := LastClaim(h);
    match reason
    case AuthorityNotDeclared => manifest.snapshotAuthority != SnapshotAuthoritative
    case NotSnapshotMode => request.mode == Incremental || request.snapshotScope.None?
    case NoCompletenessClaim => claim.None?
    case ClaimIsPartial => claim.Some? && claim.value.state == Partial
    case ClaimScopeMismatch => false
    case ErrorDiagnostic => ErrorDiagnosed(h)
    case NonZeroExit => exit != Exited(0)
    case ProtocolViolation => RejectedIn(h)
    case WindowedRun => request.windowed
    case ClaimNotFinal => claim.Some? && !FinalAccepted(h)
    case ClaimNotCommitted => claim.Some? && !FinalCommitted(h)
  }

  /** An unrejected run that exited cleanly and, for a snapshot, last claimed its whole scope complete. */
  predicate Completed(request: CollectRequest, h: seq<Entry>, exit: ExitObservation) {
    && !RejectedIn(h) && !ErrorDiagnosed(h) && exit == Exited(0)
    && (request.mode == Snapshot ==>
          request.snapshotScope.Some?
          && LastClaim(h) == Some(SnapshotClaim(request.snapshotScope.value, Complete)))
  }

  /** Otherwise a run that exited unrejected with something to show for itself. */
  predicate Achieved(h: seq<Entry>, exit: ExitObservation) {
    !RejectedIn(h) && exit.Exited? && (LastCommitted(h).Some? || RecordTotal(h) > 0)
  }

  lemma StandsIsObjection(request: CollectRequest, manifest: Manifest, index: Index,
                          seen: map<SourceKey, Fingerprint>, ops: seq<Op>, exit: ExitObservation, r: DeletionRefusal)
    ensures var s := Initial(request, manifest, index, seen);
            Stands(Run(s, ops), exit, r) <==> Objects(request, manifest, Trace(s, ops), exit, r)
  {
    hide Run, Trace, Inv, LastClaim, FinalAccepted, FinalCommitted, ErrorDiagnosed, RejectedIn;
    var s := Initial(request, manifest, index, seen);
    FlagsAreHistory(request, manifest, index, seen, ops);
    InitialInv(request, manifest, index, seen);
    RunOnward(s, ops);
    RunInv(s, ops);
    MismatchNeverStands(Run(s, ops), exit);
  }

  /**
   * Every member of the report is the history's: the cursor, both counts, the outcome, and for a
   * refused deletion exactly the standing objections, in their declared order.
   */
  lemma ReportIsHistory(request: CollectRequest, manifest: Manifest, index: Index, seen: map<SourceKey, Fingerprint>,
                        ops: seq<Op>, exit: ExitObservation)
    ensures var s := Initial(request, manifest, index, seen);
            var h := Trace(s, ops); var report := Finish(Run(s, ops), exit);
            report.committedCursor == LastCommitted(h)
            && report.recordsAccepted == RecordTotal(h) && report.diagnosticsAccepted == DiagnosticTotal(h)
            && (report.outcome == RunComplete <==> Completed(request, h, exit))
            && (report.outcome == RunPartial <==> !Completed(request, h, exit) && Achieved(h, exit))
            && (report.deletion.Refused? ==>
                  (forall r :: r in report.deletion.reasons <==> Objects(request, manifest, h, exit, r))
                  && Sorting.StrictlyAscending(report.deletion.reasons, CollectSessions.Earlier))
  {
    hide Run, Trace, LastClaim, FinalAccepted, FinalCommitted, ErrorDiagnosed, RejectedIn, Objects, Stands, Standing;
    var s := Initial(request, manifest, index, seen);
    var t, h := Run(s, ops), Trace(s, ops);
    RunRecounted(s, ops);
    InitialInv(request, manifest, index, seen);
    CoverageIsConserved(s, ops);
    RunOnward(s, ops);
    FlagsAreHistory(request, manifest, index, seen, ops);
    hide LastCommitted, RecordTotal, Inv, Initial, CollectSessions.Earlier;
    EmptyMeansScoped(t, exit);
    StandingExactly(t, exit, ALL_REFUSALS);
    CollectSessions.EveryReasonRanked();
    CollectSessions.StandingAscends(t, exit, ALL_REFUSALS);
    forall r ensures r in Standing(t, exit, ALL_REFUSALS) <==> Objects(request, manifest, h, exit, r) {
      StandsIsObjection(request, manifest, index, seen, ops, exit, r);
    }
  }
}
