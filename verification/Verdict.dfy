/** The verdict on a collect run, told from its accepted events, its rejection and the exit. */
module Verdicts {
  import opened Wrappers
  import opened Codes
  import opened Manifests
  import opened Protocol
  import S = Session
  import DA = DeletionAuthority
  import opened SessionRuns
  import opened Driver
  import opened Narratives

  // ---- What the accepted events say ----

  function DiagnosticCount(events: seq<FieldEvent>): nat {
    if events == [] then 0
    else DiagnosticCount(events[..|events| - 1]) + if events[|events| - 1].DiagnosticFrame? then 1 else 0
  }

  /** The completeness claim of the last checkpoint that made one. */
  function ClaimIn(events: seq<FieldEvent>): Option<SnapshotClaim> {
    if events == [] then None
    else
      var e := events[|events| - 1];
      if e.CheckpointFrame? && e.checkpoint.snapshot.Some? then e.checkpoint.snapshot
      else ClaimIn(events[..|events| - 1])
  }

  predicate ErrorIn(events: seq<FieldEvent>) {
    exists i :: 0 <= i < |events| && events[i].DiagnosticFrame? && events[i].diagnostic.severity == Error
  }

  predicate FinalIn(events: seq<FieldEvent>) {
    exists i :: 0 <= i < |events| && events[i].CheckpointFrame? && events[i].checkpoint.isFinal
  }

  /** A final checkpoint no failed write stands below. */
  predicate FinalEarned(events: seq<FieldEvent>, policy: DurabilityPolicy) {
    exists i :: 0 <= i < |events| && events[i].CheckpointFrame? && events[i].checkpoint.isFinal
                && !Blocked(events[..i], policy, events[i].checkpoint.coversThrough)
  }

  predicate Tallied(s: S.State, events: seq<FieldEvent>) {
    && s.recordCount == RecordCount(events) && s.diagnosticCount == DiagnosticCount(events)
    && s.finalClaim == ClaimIn(events)
    && (s.errorDiagnostic <==> ErrorIn(events)) && (s.finalCheckpointSeq.Some? <==> FinalIn(events))
  }

  /** The session is the request's, and it counts and remembers what its events say. */
  predicate Judged(p: Progress, plan: Plan, manifest: Manifest) {
    && p.session.manifest == manifest && p.session.mode == plan.request.mode
    && p.session.snapshotScope == plan.request.snapshotScope && p.session.windowed == plan.request.windowed
    && Tallied(p.session, p.events)
    && (p.rejection.None? ==> (p.session.finalClaimCommitted <==> FinalEarned(p.events, plan.durability)))
  }

  lemma TallySnoc(events: seq<FieldEvent>, e: FieldEvent, policy: DurabilityPolicy)
    ensures RecordCount(events + [e]) == RecordCount(events) + if e.RecordFrame? then 1 else 0
    ensures DiagnosticCount(events + [e]) == DiagnosticCount(events) + if e.DiagnosticFrame? then 1 else 0
    ensures ClaimIn(events + [e])
         == if e.CheckpointFrame? && e.checkpoint.snapshot.Some? then e.checkpoint.snapshot else ClaimIn(events)
    ensures ErrorIn(events + [e]) <==> ErrorIn(events) || (e.DiagnosticFrame? && e.diagnostic.severity == Error)
    ensures FinalIn(events + [e]) <==> FinalIn(events) || (e.CheckpointFrame? && e.checkpoint.isFinal)
    ensures FinalEarned(events + [e], policy)
            <==> FinalEarned(events, policy)
                 || (e.CheckpointFrame? && e.checkpoint.isFinal && !Blocked(events, policy, e.checkpoint.coversThrough))
  {
    hide Blocked;
    var all := events + [e];
    assert all[..|events|] == events && all[|events|] == e;
    forall i | 0 <= i < |events| ensures all[..i] == events[..i] && all[i] == events[i] {
    }
    if ErrorIn(events) {
      var i :| 0 <= i < |events| && events[i].DiagnosticFrame? && events[i].diagnostic.severity == Error;
      assert all[i] == events[i];
    }
    if FinalIn(events) {
      var i :| 0 <= i < |events| && events[i].CheckpointFrame? && events[i].checkpoint.isFinal;
      assert all[i] == events[i];
    }
    if FinalEarned(events, policy) {
      var i :| 0 <= i < |events| && events[i].CheckpointFrame? && events[i].checkpoint.isFinal
               && !Blocked(events[..i], policy, events[i].checkpoint.coversThrough);
      assert all[i] == events[i] && all[..i] == events[..i];
    }
  }

  /** An accepted event is tallied, and a session that takes one has no final checkpoint yet. */
  lemma AcceptTallied(s: S.State, events: seq<FieldEvent>, event: FieldEvent, policy: DurabilityPolicy)
    requires Inv(s) && Tallied(s, events) && S.Accept(s, event).1.Ok?
    ensures Tallied(S.Accept(s, event).0, events + [event])
    ensures !s.finalClaimCommitted && !FinalEarned(events, policy)
    ensures S.Accept(s, event).0.finalClaimCommitted == s.finalClaimCommitted
  {
    AcceptGranted(s, event);
    TallySnoc(events, event, policy);
    hide S.Accept, S.PayloadDefect, S.CheckpointDefect, S.Disposition, RecordCount, DiagnosticCount, ClaimIn, ErrorIn;
    hide S.NewlyCovered, Blocked;
    assert !FinalIn(events);
    assert !FinalEarned(events, policy);
  }

  /** An offer moves the committed cursor and the pending offer, and marks a final claim committed. */
  lemma OfferMoves(p: Progress, offer: S.CheckpointOffer)
    requires p.session.pendingOffer == Some(offer) && !p.session.rejected && !p.session.finalClaimCommitted
    requires p.session.finalCheckpointSeq == (if offer.isFinal then Some(offer.seq_) else None)
    ensures var after := AfterOffer(p, offer); var t := after.session;
            after.events == p.events && after.rejection == p.rejection
            && t == p.session.(lastCommittedCoverage := t.lastCommittedCoverage, committed := t.committed,
                               pendingOffer := t.pendingOffer, finalClaimCommitted := t.finalClaimCommitted)
            && (t.finalClaimCommitted <==> S.Commit(p.session, offer).1.Ok? && offer.isFinal)
  {
    hide S.Undurable;
  }

  lemma OfferEarnsFinal(s: S.State, before: seq<FieldEvent>, c: CheckpointEvent, policy: DurabilityPolicy)
    requires Inv(s) && s.pendingOffer == Some(S.OfferOf(c)) && !s.rejected && s.recordsBySeq == RecordsIn(before)
    requires forall q :: q in s.durableSeqs ==> policy.Succeeds(q)
    requires forall q :: q in s.recordsBySeq && policy.Succeeds(q) ==> q in s.durableSeqs
    requires !FinalEarned(before, policy)
    ensures FinalEarned(before + [CheckpointFrame(c)], policy)
            <==> S.Commit(s, S.OfferOf(c)).1.Ok? && S.OfferOf(c).isFinal
  {
    OfferGrantedExactly(s, S.OfferOf(c), policy);
    TallySnoc(before, CheckpointFrame(c), policy);
    hide Inv, S.Commit, FinalEarned, RecordsIn;
  }

  lemma OfferJudged(p: Progress, before: seq<FieldEvent>, c: CheckpointEvent, plan: Plan, manifest: Manifest)
    requires Inv(p.session) && p.session.pendingOffer == Some(S.OfferOf(c)) && !p.session.rejected
    requires p.session.recordsBySeq == RecordsIn(before)
    requires forall q :: q in p.session.durableSeqs ==> plan.durability.Succeeds(q)
    requires forall q :: q in p.session.recordsBySeq && plan.durability.Succeeds(q) ==> q in p.session.durableSeqs
    requires p.session.manifest == manifest && p.session.mode == plan.request.mode && p.rejection.None?
    requires p.session.snapshotScope == plan.request.snapshotScope && p.session.windowed == plan.request.windowed
    requires p.events == before + [CheckpointFrame(c)] && Tallied(p.session, p.events)
    requires !p.session.finalClaimCommitted && !FinalEarned(before, plan.durability)
    requires p.session.finalCheckpointSeq == (if c.isFinal then Some(c.seq_) else None)
    ensures Judged(AfterOffer(p, S.OfferOf(c)), plan, manifest)
  {
    hide Inv, S.Commit, RecordsIn, FinalEarned, AfterOffer, RecordCount, DiagnosticCount, ClaimIn, ErrorIn, FinalIn;
    OfferEarnsFinal(p.session, before, c, plan.durability);
    OfferMoves(p, S.OfferOf(c));
  }

  lemma InstallJudged(p: Progress, record: RecordEvent, disposition: S.RecordDisposition, plan: Plan,
                      manifest: Manifest)
    requires Judged(p, plan, manifest)
    ensures Judged(AfterCancellation(AfterInstall(p, record, disposition, plan), plan), plan, manifest)
  {
    hide S.Charge, RecordCount, DiagnosticCount, ClaimIn, ErrorIn, FinalIn, FinalEarned, ResultsFor, ArtifactActions;
  }

  lemma RefusalJudged(p: Progress, event: FieldEvent, plan: Plan, manifest: Manifest)
    requires Judged(p, plan, manifest) && S.Accept(p.session, event).1.Err?
    ensures Judged(AfterEvent(p, event, plan), plan, manifest)
  {
    AcceptRefused(p.session, event);
    hide S.Accept, RecordCount, DiagnosticCount, ClaimIn, ErrorIn, FinalIn, FinalEarned;
  }

  lemma EventJudged(p: Progress, event: FieldEvent, plan: Plan, manifest: Manifest)
    requires Consistent(p.session, p.events, p.actions, p.cursors, plan.durability)
    requires Prompt(p, plan.durability) && Judged(p, plan, manifest) && p.rejection.None?
    ensures Judged(AfterEvent(p, event, plan), plan, manifest)
  {
    ConsistentMeans(p, plan);
    var (t, r) := S.Accept(p.session, event);
    hide Consistent, EarnedCommits, Inv, Tallied, FinalEarned, S.Accept, S.PayloadDefect, S.CheckpointDefect;
    hide S.Disposition, AfterInstall, AfterOffer, AfterCancellation;
    if r.Err? {
      RefusalJudged(p, event, plan, manifest);
    } else {
      AcceptGranted(p.session, event);
      AcceptTallied(p.session, p.events, event, plan.durability);
      AcceptInv(p.session, event);
      TallySnoc(p.events, event, plan.durability);
      var q := p.(session := t, events := p.events + [event]);
      match event
      case RecordFrame(record) => InstallJudged(q, record, r.value.disposition, plan, manifest);
      case CheckpointFrame(c) => OfferJudged(q, p.events, c, plan, manifest);
      case DiagnosticFrame(_) =>
    }
  }

  lemma {:induction false} DriveJudged(init: S.State, p: Progress, frames: seq<Frame>, plan: Plan, manifest: Manifest)
    requires Safe(init, p, plan.durability) && Prompt(p, plan.durability) && Judged(p, plan, manifest)
    ensures Judged(Drive(p, frames, plan), plan, manifest)
    decreases |frames|
  {
    hide AfterEvent, Consistent, IsSessionRun, EarnedCommits, Tallied, FinalEarned;
    if frames != [] {
      var n := |frames| - 1;
      DriveJudged(init, p, frames[..n], plan, manifest);
      DriveSafe(init, p, frames[..n], plan);
      DrivePrompt(init, p, frames[..n], plan);
      var q := Drive(p, frames[..n], plan);
      if q.rejection.None? {
        if frames[n].Event? {
          EventJudged(q, frames[n].event, plan, manifest);
        } else {
          RejectionTallied(q.session, q.events);
        }
      }
    }
  }

  lemma RejectionTallied(s: S.State, events: seq<FieldEvent>)
    requires Tallied(s, events)
    ensures Tallied(S.NoteRejection(s), events)
  {
  }

  // ---- The verdict ----

  /** The events of a snapshot run last claim the whole requested scope complete. */
  predicate ClaimsScope(request: CollectRequest, events: seq<FieldEvent>) {
    request.snapshotScope.Some? && ClaimIn(events) == Some(SnapshotClaim(request.snapshotScope.value, Complete))
  }

  /** Complete: nothing rejected, a clean exit, no error diagnosed, and a snapshot claimed whole. */
  predicate IsComplete(plan: Plan, run: CollectRun, exit: S.ExitObservation) {
    && run.rejection.None? && exit == S.Exited(0) && !ErrorIn(run.events)
    && (plan.request.mode == Snapshot ==> ClaimsScope(plan.request, run.events))
  }

  /** Partial: nothing rejected and a normal exit, with a cursor committed or a record accepted. */
  predicate IsPartial(run: CollectRun, exit: S.ExitObservation) {
    run.rejection.None? && exit.Exited? && (run.committedCursors != [] || RecordCount(run.events) > 0)
  }

  /** Absence is deletion: a complete, authoritative, unwindowed snapshot whose final checkpoint was committed. */
  predicate MayDeleteScope(plan: Plan, manifest: Manifest, run: CollectRun, exit: S.ExitObservation) {
    && IsComplete(plan, run, exit)
    && manifest.snapshotAuthority == SnapshotAuthoritative && plan.request.mode == Snapshot && !plan.request.windowed
    && FinalIn(run.events) && FinalEarned(run.events, plan.durability)
  }

  lemma AuthorizedExactly(s: S.State, exit: S.ExitObservation, scope: string)
    ensures S.Deletion(s, exit) == S.Authorized(scope)
            <==> s.snapshotScope == Some(scope) && forall r: S.DeletionRefusal :: !S.Stands(s, exit, r)
  {
    DA.NoReasonStands(s, exit);
    hide S.Standing, S.Stands;
  }

  lemma NoneStandsExactly(s: S.State, exit: S.ExitObservation)
    ensures (forall r: S.DeletionRefusal :: !S.Stands(s, exit, r))
            <==> s.manifest.snapshotAuthority == SnapshotAuthoritative && s.mode == Snapshot && s.snapshotScope.Some?
                 && s.finalClaim == Some(SnapshotClaim(s.snapshotScope.value, Complete))
                 && !s.errorDiagnostic && exit == S.Exited(0) && !s.rejected && !s.windowed
                 && s.finalCheckpointSeq.Some? && s.finalClaimCommitted
  {
    if forall r: S.DeletionRefusal :: !S.Stands(s, exit, r) {
      assert !S.Stands(s, exit, S.AuthorityNotDeclared) && !S.Stands(s, exit, S.NotSnapshotMode);
      assert !S.Stands(s, exit, S.NoCompletenessClaim) && !S.Stands(s, exit, S.ClaimIsPartial);
      assert !S.Stands(s, exit, S.ClaimScopeMismatch) && !S.Stands(s, exit, S.ErrorDiagnostic);
      assert !S.Stands(s, exit, S.NonZeroExit) && !S.Stands(s, exit, S.ProtocolViolation);
      assert !S.Stands(s, exit, S.WindowedRun) && !S.Stands(s, exit, S.ClaimNotFinal);
      assert !S.Stands(s, exit, S.ClaimNotCommitted);
    }
  }

  /** A finished run's outcome, counts and authority are told by its accepted events, its rejection and the exit. */
  lemma VerdictIsTold(plan: Plan, manifest: Manifest, registry: Registry, sendFailure: Option<RejectionCode>,
                      frames: seq<Frame>, exit: S.ExitObservation, scope: string)
    ensures var run := RunOf(plan, manifest, registry, sendFailure, frames, exit);
            (run.report.outcome == S.RunComplete <==> IsComplete(plan, run, exit))
            && (run.report.outcome == S.RunPartial <==> !IsComplete(plan, run, exit) && IsPartial(run, exit))
            && run.report.recordsAccepted == RecordCount(run.events)
            && run.report.diagnosticsAccepted == DiagnosticCount(run.events)
            && (run.report.deletion == S.Authorized(scope)
                <==> MayDeleteScope(plan, manifest, run, exit) && plan.request.snapshotScope == Some(scope))
  {
    hide Consistent, IsSessionRun, IndexOf, Narrated, Explained, EarnedCommits, Advance, S.Stands, S.Deletion;
    var init := S.Initial(plan.request, manifest, IndexOf(manifest, registry), plan.currentState);
    var start := Begin(init, sendFailure);
    StartIsReady(plan, manifest, registry, sendFailure);
    StartJudged(plan, manifest, registry, sendFailure);
    DriveSafe(init, start, frames, plan);
    DrivePrompt(init, start, frames, plan);
    DriveJudged(init, start, frames, plan, manifest);
    var p := Drive(start, frames, plan);
    hide Drive, Begin, S.Initial;
    CursorsOf(p, plan.durability);
    ConcludeJudged(p, plan, manifest, exit, scope);
  }

  lemma StartJudged(plan: Plan, manifest: Manifest, registry: Registry, sendFailure: Option<RejectionCode>)
    ensures var init := S.Initial(plan.request, manifest, IndexOf(manifest, registry), plan.currentState);
            Judged(Begin(init, sendFailure), plan, manifest)
  {
  }

  lemma CursorsOf(p: Progress, policy: DurabilityPolicy)
    requires Consistent(p.session, p.events, p.actions, p.cursors, policy)
    ensures p.session.committed.Some? <==> p.cursors != []
  {
    hide Inv, RecordsIn, CommitsFollowNotes, NotedBefore, Commits, Coverages;
  }

  lemma ConcludeJudged(p: Progress, plan: Plan, manifest: Manifest, exit: S.ExitObservation, scope: string)
    requires Judged(p, plan, manifest) && (p.rejection.Some? <==> p.session.rejected)
    requires p.session.committed.Some? <==> p.cursors != []
    ensures var run := Conclude(p, exit);
            (run.report.outcome == S.RunComplete <==> IsComplete(plan, run, exit))
            && (run.report.outcome == S.RunPartial <==> !IsComplete(plan, run, exit) && IsPartial(run, exit))
            && run.report.recordsAccepted == RecordCount(run.events)
            && run.report.diagnosticsAccepted == DiagnosticCount(run.events)
            && (run.report.deletion == S.Authorized(scope)
                <==> MayDeleteScope(plan, manifest, run, exit) && plan.request.snapshotScope == Some(scope))
  {
    AuthorizedExactly(p.session, exit, scope);
    NoneStandsExactly(p.session, exit);
    hide S.Stands, S.Deletion, RecordCount, DiagnosticCount, ClaimIn, ErrorIn, FinalIn, FinalEarned, Closing;
  }
}
