/** When a finished run may delete by absence, told from the run's history alone. */
module DeletionAuthority {
  import opened Wrappers
  import opened Manifests
  import opened Protocol
  import opened Utf8
  import opened Session
  import opened SessionRuns

  // ---- What a history shows ----

  /** The most recent accepted completeness claim, whichever checkpoint carried it. */
  function LastClaim(h: seq<Entry>): Option<SnapshotClaim> {
    if h == [] then None
    else
      var e := h[|h| - 1];
      if AcceptedCheckpointEntry(e) && e.op.event.checkpoint.snapshot.Some? then e.op.event.checkpoint.snapshot
      else LastClaim(h[..|h| - 1])
  }

  predicate FinalAcceptedAt(e: Entry) { AcceptedCheckpointEntry(e) && e.op.event.checkpoint.isFinal }

  predicate FinalCommittedAt(e: Entry) {
    e.op.DoCommit? && e.op.offer.isFinal && e.reply.Committed? && e.reply.cursor.Ok?
  }

  predicate ErrorDiagnosedAt(e: Entry) {
    && e.op.DoAccept? && e.op.event.DiagnosticFrame? && e.op.event.diagnostic.severity == Error
    && e.reply.Accepted? && e.reply.event.Ok?
  }

  predicate RejectedAt(e: Entry) {
    e.op.DoNoteRejection? || (e.reply.Accepted? && e.reply.event.Err?)
    || (e.reply.ResolvedAll? && e.reply.outcomes.Err?)
  }

  predicate FinalAccepted(h: seq<Entry>) { exists e :: e in h && FinalAcceptedAt(e) }

  predicate FinalCommitted(h: seq<Entry>) { exists e :: e in h && FinalCommittedAt(e) }

  predicate ErrorDiagnosed(h: seq<Entry>) { exists e :: e in h && ErrorDiagnosedAt(e) }

  predicate RejectedIn(h: seq<Entry>) { exists e :: e in h && RejectedAt(e) }

  // ---- The session's flags are its history ----

  predicate FlagsMatch(s: State, h: seq<Entry>) {
    && s.finalClaim == LastClaim(h)
    && (s.finalCheckpointSeq.Some? <==> FinalAccepted(h))
    && (s.finalClaimCommitted <==> FinalCommitted(h))
    && (s.errorDiagnostic <==> ErrorDiagnosed(h))
    && (s.rejected <==> RejectedIn(h))
  }

  lemma HistorySnoc(h: seq<Entry>, e: Entry)
    ensures FinalAccepted(h + [e]) <==> FinalAccepted(h) || FinalAcceptedAt(e)
    ensures FinalCommitted(h + [e]) <==> FinalCommitted(h) || FinalCommittedAt(e)
    ensures ErrorDiagnosed(h + [e]) <==> ErrorDiagnosed(h) || ErrorDiagnosedAt(e)
    ensures RejectedIn(h + [e]) <==> RejectedIn(h) || RejectedAt(e)
    ensures LastClaim(h + [e])
         == if AcceptedCheckpointEntry(e) && e.op.event.checkpoint.snapshot.Some? then e.op.event.checkpoint.snapshot
            else LastClaim(h)
  {
    assert (h + [e])[..|h|] == h;
    assert e in h + [e];
    assert forall f :: f in h ==> f in h + [e];
  }

  /** How one operation moves each flag, in the terms of its own trace entry. */
  lemma FlagStep(s: State, op: Op)
    requires Inv(s)
    ensures var (t, reply) := Step(s, op); var e := Entry(op, reply);
            && t.finalClaim == (if AcceptedCheckpointEntry(e) && e.op.event.checkpoint.snapshot.Some?
                                then e.op.event.checkpoint.snapshot else s.finalClaim)
            && (t.finalCheckpointSeq.Some? <==> s.finalCheckpointSeq.Some? || FinalAcceptedAt(e))
            && (t.finalClaimCommitted <==> s.finalClaimCommitted || FinalCommittedAt(e))
            && (t.errorDiagnostic <==> s.errorDiagnostic || ErrorDiagnosedAt(e))
            && (t.rejected <==> s.rejected || RejectedAt(e))
  {
    hide Accept, Charge, PayloadDefect, CheckpointDefect, Disposition, NewlyCovered;
    match op
    case DoAccept(event) => if Accept(s, event).1.Err? { AcceptRefused(s, event); } else { AcceptGranted(s, event); }
    case _ =>
  }

  lemma {:induction false} FlagsAreHistory(
      request: CollectRequest, manifest: Manifest, index: Index, seen: map<SourceKey, Fingerprint>, ops: seq<Op>)
    ensures var s := Initial(request, manifest, index, seen); FlagsMatch(Run(s, ops), Trace(s, ops))
    decreases |ops|
  {
    hide Step;
    var s := Initial(request, manifest, index, seen);
    if ops != [] {
      var n := |ops| - 1;
      FlagsAreHistory(request, manifest, index, seen, ops[..n]);
      RunInv(s, ops[..n]);
      var t := Run(s, ops[..n]);
      FlagStep(t, ops[n]);
      HistorySnoc(Trace(s, ops[..n]), Entry(ops[n], Step(t, ops[n]).1));
    }
  }

  // ---- The theorem ----

  /** Every condition under which absence is deletion, and nothing else. */
  predicate MayDelete(
      request: CollectRequest, manifest: Manifest, h: seq<Entry>, exit: ExitObservation, scope: string)
  {
    && manifest.snapshotAuthority == SnapshotAuthoritative
    && request.mode == Snapshot && request.snapshotScope == Some(scope) && !request.windowed
    && LastClaim(h) == Some(SnapshotClaim(scope, Complete))
    && FinalAccepted(h) && FinalCommitted(h)
    && !ErrorDiagnosed(h) && !RejectedIn(h)
    && exit == Exited(0)
  }

  lemma EveryReasonListed(r: DeletionRefusal)
    ensures r in ALL_REFUSALS
  {
    assert ALL_REFUSALS[0] == AuthorityNotDeclared && ALL_REFUSALS[1] == NotSnapshotMode;
    assert ALL_REFUSALS[2] == NoCompletenessClaim && ALL_REFUSALS[3] == ClaimIsPartial;
    assert ALL_REFUSALS[4] == ClaimScopeMismatch && ALL_REFUSALS[5] == ErrorDiagnostic;
    assert ALL_REFUSALS[6] == NonZeroExit && ALL_REFUSALS[7] == ProtocolViolation;
    assert ALL_REFUSALS[8] == WindowedRun && ALL_REFUSALS[9] == ClaimNotFinal && ALL_REFUSALS[10] == ClaimNotCommitted;
  }

  lemma NoReasonStands(s: State, exit: ExitObservation)
    ensures Standing(s, exit, ALL_REFUSALS) == [] <==> forall r: DeletionRefusal :: !Stands(s, exit, r)
  {
    hide Stands;
    StandingExactly(s, exit, ALL_REFUSALS);
    var reasons := Standing(s, exit, ALL_REFUSALS);
    if reasons == [] {
      forall r: DeletionRefusal ensures !Stands(s, exit, r) {
        EveryReasonListed(r);
        assert r !in reasons;
      }
    } else {
      assert reasons[0] in reasons;
    }
  }

  /** Deletion of a scope is authorized exactly when the history satisfies every condition for it. */
  lemma DeletionExactlyWhenEarned(
      request: CollectRequest, manifest: Manifest, index: Index, seen: map<SourceKey, Fingerprint>,
      ops: seq<Op>, exit: ExitObservation, scope: string)
    ensures var s := Initial(request, manifest, index, seen);
            Finish(Run(s, ops), exit).deletion == Authorized(scope)
            <==> MayDelete(request, manifest, Trace(s, ops), exit, scope)
  {
    hide FinalAccepted, FinalCommitted, ErrorDiagnosed, RejectedIn, LastClaim, Run, Trace, Inv, Standing;
    var s := Initial(request, manifest, index, seen);
    var t := Run(s, ops);
    FlagsAreHistory(request, manifest, index, seen, ops);
    InitialInv(request, manifest, index, seen);
    RunOnward(s, ops);
    NoReasonStands(t, exit);
    if MayDelete(request, manifest, Trace(s, ops), exit, scope) {
      forall r: DeletionRefusal ensures !Stands(t, exit, r) {
      }
    } else if t.snapshotScope == Some(scope) {
      assert Stands(t, exit, AuthorityNotDeclared) || Stands(t, exit, NotSnapshotMode) || Stands(t, exit, WindowedRun)
             || Stands(t, exit, NoCompletenessClaim) || Stands(t, exit, ClaimIsPartial)
             || Stands(t, exit, ClaimScopeMismatch)
             || Stands(t, exit, ClaimNotFinal) || Stands(t, exit, ClaimNotCommitted) || Stands(t, exit, ErrorDiagnostic)
             || Stands(t, exit, ProtocolViolation) || Stands(t, exit, NonZeroExit);
    }
  }

  /**
   * An authorized run is complete, its committed cursor is the last checkpoint's, and
   * everything that checkpoint covers is durable.
   */
  lemma AuthorityImpliesCompleteAndCommitted(s: State, ops: seq<Op>, exit: ExitObservation)
    requires Inv(s)
    requires Finish(Run(s, ops), exit).deletion.Authorized?
    ensures var t := Run(s, ops); var report := Finish(t, exit);
            report.outcome == RunComplete
            && report.committedCursor.Some?
            && report.committedCursor.value.coversThrough == t.lastCheckpointCoverage
            && CoveredDurable(t, t.lastCheckpointCoverage)
  {
    hide Run, Standing;
    RunInv(s, ops);
    var t := Run(s, ops);
    NoReasonStands(t, exit);
    assert !Stands(t, exit, NotSnapshotMode) && !Stands(t, exit, NoCompletenessClaim)
           && !Stands(t, exit, ClaimIsPartial);
    assert !Stands(t, exit, ClaimScopeMismatch) && !Stands(t, exit, ClaimNotCommitted);
    assert !Stands(t, exit, ErrorDiagnostic) && !Stands(t, exit, ProtocolViolation) && !Stands(t, exit, NonZeroExit);
  }

  /** A refusal lists exactly the standing reasons; a scope mismatch is never one of them. */
  lemma RefusalListsEveryReason(s: State, ops: seq<Op>, exit: ExitObservation, r: DeletionRefusal)
    requires Inv(s)
    ensures var t := Run(s, ops); var d := Finish(t, exit).deletion;
            (d.Refused? ==> (r in d.reasons <==> Stands(t, exit, r)) && ClaimScopeMismatch !in d.reasons)
            && (d.Refused? <==> exists q: DeletionRefusal :: Stands(t, exit, q))
  {
    hide Stands;
    RunInv(s, ops);
    var t := Run(s, ops);
    StandingExactly(t, exit, ALL_REFUSALS);
    NoReasonStands(t, exit);
    EveryReasonListed(r);
    MismatchNeverStands(t, exit);
    EmptyMeansScoped(t, exit);
  }

  lemma MismatchNeverStands(t: State, exit: ExitObservation)
    requires Inv(t)
    ensures !Stands(t, exit, ClaimScopeMismatch)
  {
  }

  /** With no reason standing there is a requested scope: the report's fallback refusal is unreachable. */
  lemma EmptyMeansScoped(t: State, exit: ExitObservation)
    ensures Standing(t, exit, ALL_REFUSALS) == [] ==> t.snapshotScope.Some?
  {
    NoReasonStands(t, exit);
    if Standing(t, exit, ALL_REFUSALS) == [] { assert !Stands(t, exit, NotSnapshotMode); }
  }

  const SAMPLE_RUN := "1a4c9f2e-0000-4000-8000-000000000002"

  /** A manifest, a request and checkpoints that decode: a capability slice, a run id, a cursor. */
  function SampleManifest(): Manifest {
    Manifest("local", Some("local_"), [], [CapabilitySlice("file", "file")], false, false, SnapshotAuthoritative, 1)
  }

  function SampleRequest(limits: Limits): CollectRequest {
    CollectRequest(SAMPLE_RUN, Snapshot, Some("all"), false, limits)
  }

  function SampleCheckpoint(seq_: nat, claim: Option<SnapshotClaim>, isFinal: bool): CheckpointEvent {
    CheckpointEvent(SAMPLE_RUN, seq_, "c", 1, 0, 0, claim, isFinal)
  }

  /**
   * The claim need not travel on the final checkpoint: a run whose claim came one checkpoint
   * earlier, and whose final checkpoint claims nothing, is still authorized.
   */
  lemma ClaimMayPrecedeFinalCheckpoint(limits: Limits, registry: Registry)
    requires limits.maxCursorBytes >= 1
    ensures var claiming := SampleCheckpoint(1, Some(SnapshotClaim("all", Complete)), false);
            var closing := SampleCheckpoint(2, None, true);
            var ops := [DoAccept(CheckpointFrame(claiming)), DoCommit(OfferOf(claiming)),
                        DoAccept(CheckpointFrame(closing)), DoCommit(OfferOf(closing))];
            var s := Initial(SampleRequest(limits), SampleManifest(), IndexOf(SampleManifest(), registry), map[]);
            OwnsItsDeclarations(SampleManifest()) && Finish(Run(s, ops), Exited(0)).deletion == Authorized("all")
  {
    var claiming := SampleCheckpoint(1, Some(SnapshotClaim("all", Complete)), false);
    var closing := SampleCheckpoint(2, None, true);
    var ops := [DoAccept(CheckpointFrame(claiming)), DoCommit(OfferOf(claiming)),
                DoAccept(CheckpointFrame(closing)), DoCommit(OfferOf(closing))];
    var s := Initial(SampleRequest(limits), SampleManifest(), IndexOf(SampleManifest(), registry), map[]);
    assert ByteLen("c") == 1 by { assert "c"[1..] == []; }
    var s2 := EmptyCheckpointCommits(s, claiming);
    var s4 := EmptyCheckpointCommits(s2, closing);
    hide Accept, Commit, Standing, Run, ByteLen, IndexOf;
    RunOfFour(s, ops[0], ops[1], ops[2], ops[3]);
    assert Run(s, ops) == s4;
    NothingStandsIn(s4);
    hide Stands;
    NoReasonStands(s4, Exited(0));
  }

  lemma NothingStandsIn(s: State)
    requires s.manifest.snapshotAuthority == SnapshotAuthoritative && s.mode == Snapshot && !s.windowed
    requires s.finalClaim == Some(SnapshotClaim("all", Complete)) && s.snapshotScope == Some("all")
    requires s.finalCheckpointSeq.Some? && s.finalClaimCommitted && !s.errorDiagnostic && !s.rejected
    ensures forall r: DeletionRefusal :: !Stands(s, Exited(0), r)
  {
  }

  lemma {:induction false} TraceLength(s: State, ops: seq<Op>)
    ensures |Trace(s, ops)| == |ops|
  {
    hide Step;
    if ops != [] { TraceLength(s, ops[..|ops| - 1]); }
  }

  /** Nothing is accepted after the final checkpoint, so a claim it carries stays the most recent one. */
  lemma {:induction false} FinalClaimIsLast(
      request: CollectRequest, manifest: Manifest, index: Index, seen: map<SourceKey, Fingerprint>, ops: seq<Op>,
      i: nat)
    requires var h := Trace(Initial(request, manifest, index, seen), ops);
             i < |h| && FinalAcceptedAt(h[i]) && h[i].op.event.checkpoint.snapshot.Some?
    ensures var h := Trace(Initial(request, manifest, index, seen), ops);
            LastClaim(h) == h[i].op.event.checkpoint.snapshot
    decreases |ops|
  {
    hide Step, Initial;
    var s := Initial(request, manifest, index, seen);
    TraceLength(s, ops);
    var n := |ops| - 1;
    TraceLength(s, ops[..n]);
    var h, before := Trace(s, ops), Trace(s, ops[..n]);
    assert h[..n] == before;
    if i < n {
      FinalClaimIsLast(request, manifest, index, seen, ops[..n], i);
      FlagsAreHistory(request, manifest, index, seen, ops[..n]);
      assert before[i] in before && FinalAccepted(before);
      NothingAfterFinal(Run(s, ops[..n]), ops[n]);
    }
  }

  lemma NothingAfterFinal(s: State, op: Op)
    requires s.finalCheckpointSeq.Some?
    ensures !AcceptedCheckpointEntry(Entry(op, Step(s, op).1))
  {
    hide Accept, Commit, ResolveArtifacts;
    if op.DoAccept? && Accept(s, op.event).1.Ok? { AcceptGranted(s, op.event); }
  }

  /**
   * Exactly when an authorized run's final checkpoint carried the authorizing claim: when it carried
   * any claim at all.
   */
  lemma FinalCarriesClaimExactly(
      request: CollectRequest, manifest: Manifest, index: Index, seen: map<SourceKey, Fingerprint>,
      ops: seq<Op>, exit: ExitObservation, scope: string, i: nat)
    requires var s := Initial(request, manifest, index, seen);
             Finish(Run(s, ops), exit).deletion == Authorized(scope)
             && i < |Trace(s, ops)| && FinalAcceptedAt(Trace(s, ops)[i])
    ensures var final := Trace(Initial(request, manifest, index, seen), ops)[i].op.event.checkpoint;
            final.snapshot == Some(SnapshotClaim(scope, Complete)) <==> final.snapshot.Some?
  {
    hide Finish, Run, Trace, Initial, LastClaim;
    DeletionExactlyWhenEarned(request, manifest, index, seen, ops, exit, scope);
    var h := Trace(Initial(request, manifest, index, seen), ops);
    if h[i].op.event.checkpoint.snapshot.Some? { FinalClaimIsLast(request, manifest, index, seen, ops, i); }
  }

  lemma RunOfFour(s: State, a: Op, b: Op, c: Op, d: Op)
    ensures Run(s, [a, b, c, d]) == Step(Step(Step(Step(s, a).0, b).0, c).0, d).0
  {
    hide Step;
    var ops := [a, b, c, d];
    assert ops[..3] == [a, b, c] && [a, b, c][..2] == [a, b] && [a, b][..1] == [a];
    var one, two, three := [a], [a, b], [a, b, c];
    assert one[..0] == [] && Run(s, one) == Step(s, a).0;
    assert Run(s, two) == Step(Run(s, one), b).0;
    assert Run(s, three) == Step(Run(s, two), c).0;
  }

  lemma EmptyCheckpointCommits(s: State, c: CheckpointEvent) returns (t: State)
    requires !s.rejected && s.pendingOffer.None? && s.finalCheckpointSeq.None? && s.recordsBySeq == {}
    requires s.lastCheckpointCoverage == 0 && s.lastCommittedCoverage == 0 && s.mode == Snapshot
    requires c.runId == s.runId && c.seq_ == s.lastSeq + 1 && c.coversThrough == 0 && c.recordsCovered == 0
    requires ByteLen(c.cursor) <= s.limits.maxCursorBytes && c.cursorFormatVersion == s.manifest.cursorFormatVersion
    requires c.snapshot.Some? ==> s.snapshotScope == Some(c.snapshot.value.scope)
    ensures t == Commit(Accept(s, CheckpointFrame(c)).0, OfferOf(c)).0
    ensures t == s.(lastSeq := c.seq_, finalClaim := if c.snapshot.Some? then c.snapshot else s.finalClaim,
                    finalCheckpointSeq := if c.isFinal then Some(c.seq_) else None,
                    finalClaimCommitted := s.finalClaimCommitted || c.isFinal,
                    committed := Some(CommittedCursor(c.cursor, c.cursorFormatVersion, 0)))
  {
    hide ByteLen;
    assert NewlyCovered(s.(lastSeq := c.seq_), 0) == {};
    assert Accept(s, CheckpointFrame(c)) == AcceptCheckpoint(s, c);
    var u := Accept(s, CheckpointFrame(c)).0;
    assert Undurable(u, 0) == {};
    t := Commit(u, OfferOf(c)).0;
  }
}
