/**
 * The driver of one collect run: frames in, core's observable actions out, with durable
 * writes that may fail. The child process is a sequence of frames and an exit observation.
 */
module Driver {
  import opened Wrappers
  import opened Codes
  import opened Manifests
  import opened Protocol
  import S = Session
  import DA = DeletionAuthority
  import opened SessionRuns
  import opened CollectSessions

  datatype DurabilityPolicy = AllSucceed | FailAt(failing: nat)
  {
    predicate Succeeds(seq_: nat) { AllSucceed? || seq_ != failing }
  }

  datatype Observation =
    | InstalledArtifact(digest: string)
    | ReusedArtifact(digest: string)
    | DeclinedArtifact(handle: string)
    | WroteNote(seq_: nat)
    | KeptNote(seq_: nat)
    | RemovedNote(seq_: nat)
    | DurableWriteFailed(seq_: nat)
    | DiagnosticSeen(severity: Severity)
    | CommittedCheckpoint(coversThrough: nat)
    | WithheldCheckpoint(reason: S.CommitRefusal)
    | Cancelled
    | RejectedRun(code: RejectionCode)
    | ReportedOutcome(outcome: S.RunOutcome)

  /** What arrives on the Field's standard output: an event, or output that cannot be read or decoded. */
  datatype Frame = Event(event: FieldEvent) | Broken(code: RejectionCode) | Undecodable(code: RejectionCode)

  datatype Plan = Plan(
    request: CollectRequest,
    durability: DurabilityPolicy,
    cancelAfterRecords: Option<nat>,
    cancelWrites: bool,   // whether sending the cancellation succeeds
    currentState: map<SourceKey, Fingerprint>,
    resolve: (nat, nat) -> S.ArtifactResult)   // the outcome of each record's i-th reference

  datatype CollectRun = CollectRun(
    report: S.RunReport,
    events: seq<FieldEvent>,
    committedCursors: seq<S.CommittedCursor>,
    rejection: Option<RejectionCode>,
    actions: seq<Observation>,
    currentState: map<SourceKey, Fingerprint>)

  // ---- Reading a run's actions ----

  predicate NoteAction(a: Observation, seq_: nat) {
    a == WroteNote(seq_) || a == KeptNote(seq_) || a == RemovedNote(seq_)
  }

  predicate NotedBefore(actions: seq<Observation>, end: nat, seq_: nat)
    requires end <= |actions|
  {
    exists j :: 0 <= j < end && NoteAction(actions[j], seq_)
  }

  /** The sequence numbers of the records among the accepted events. */
  function RecordsIn(events: seq<FieldEvent>): set<nat> {
    set e | e in events && e.RecordFrame? :: e.record.seq_
  }

  /** The coverages core committed, in order. */
  function Commits(actions: seq<Observation>): seq<nat> {
    if actions == [] then []
    else
      var a := actions[|actions| - 1];
      Commits(actions[..|actions| - 1]) + if a.CommittedCheckpoint? then [a.coversThrough] else []
  }

  function Coverages(cursors: seq<S.CommittedCursor>): seq<nat> {
    seq(|cursors|, i requires 0 <= i < |cursors| => cursors[i].coversThrough)
  }

  predicate NonDecreasing(s: seq<nat>) { forall i, j :: 0 <= i < j < |s| ==> s[i] <= s[j] }

  /** Every accepted record a cursor covers was noted before that cursor was committed. */
  ghost predicate CommitsFollowNotes(actions: seq<Observation>, records: set<nat>) {
    forall i :: 0 <= i < |actions| && actions[i].CommittedCheckpoint? ==>
      forall q :: q in records && q <= actions[i].coversThrough ==> NotedBefore(actions, i, q)
  }

  /** A failed durable write stands below a coverage: its record was accepted and the coverage reaches it. */
  predicate Blocked(events: seq<FieldEvent>, policy: DurabilityPolicy, coverage: nat) {
    policy.FailAt? && policy.failing in RecordsIn(events) && policy.failing <= coverage
  }

  /** The cursors core must commit, in order: each accepted checkpoint's own that no failed write stands below. */
  function EarnedCommits(events: seq<FieldEvent>, policy: DurabilityPolicy): seq<S.CommittedCursor> {
    if events == [] then []
    else
      var n := |events| - 1;
      var e := events[n];
      EarnedCommits(events[..n], policy)
      + if e.CheckpointFrame? && !Blocked(events[..n], policy, e.checkpoint.coversThrough)
        then [CursorOf(e.checkpoint)] else []
  }

  /** Where a checkpoint lets the next run resume: its own cursor text, format version and coverage. */
  function CursorOf(c: CheckpointEvent): S.CommittedCursor {
    S.CommittedCursor(c.cursor, c.cursorFormatVersion, c.coversThrough)
  }

  /** The accepted events a session trace shows. */
  function AcceptedEvents(h: seq<Entry>): seq<FieldEvent> {
    if h == [] then []
    else
      var e := h[|h| - 1];
      AcceptedEvents(h[..|h| - 1])
      + if e.op.DoAccept? && e.reply.Accepted? && e.reply.event.Ok? then [e.op.event] else []
  }

  // ---- One run, frame by frame ----

  datatype Progress = Progress(
    session: S.State,
    events: seq<FieldEvent>,
    actions: seq<Observation>,
    cursors: seq<S.CommittedCursor>,
    rejection: Option<RejectionCode>,
    recordsAccepted: nat,
    cancelled: bool)

  function Fail(p: Progress, code: RejectionCode): Progress {
    p.(session := S.NoteRejection(p.session), rejection := Some(code))
  }

  function ResultsFor(plan: Plan, record: RecordEvent): seq<S.ArtifactResult> {
    match record.payload.artifacts
    case None => []
    case Some(refs) => seq(|refs|, i requires 0 <= i < |refs| => plan.resolve(record.seq_, i))
  }

  function ArtifactAction(outcome: S.ArtifactOutcome): Observation {
    match outcome
    case Resolved(digest, _, reused) => if reused then ReusedArtifact(digest) else InstalledArtifact(digest)
    case Declined(handle) => DeclinedArtifact(handle)
  }

  function ArtifactActions(outcomes: seq<S.ArtifactOutcome>): seq<Observation> {
    seq(|outcomes|, i requires 0 <= i < |outcomes| => ArtifactAction(outcomes[i]))
  }

  function NoteFor(disposition: S.RecordDisposition, seq_: nat): Observation {
    match disposition
    case WriteNote => WroteNote(seq_)
    case NoChange => KeptNote(seq_)
    case RemoveNote => RemovedNote(seq_)
  }

  /** Artifacts first, then the Note, and only a completed write is recorded as durable. */
  function AfterInstall(p: Progress, record: RecordEvent, disposition: S.RecordDisposition, plan: Plan): Progress {
    var (resolved, r) := S.ResolveArtifacts(p.session, ResultsFor(plan, record));
    match r
    case Err(code) => p.(session := resolved, rejection := Some(code))
    case Ok(outcomes) =>
      var wrote := plan.durability.Succeeds(record.seq_);
      var last := if wrote then NoteFor(disposition, record.seq_) else DurableWriteFailed(record.seq_);
      p.(session := if wrote then S.RecordDurable(resolved, record.seq_) else resolved,
         actions := p.actions + (ArtifactActions(outcomes) + [last]),
         recordsAccepted := p.recordsAccepted + 1)
  }

  /** The planned cancellation is sent once, right after the record that reaches its count. */
  function AfterCancellation(p: Progress, plan: Plan): Progress {
    if p.rejection.None? && !p.cancelled && plan.cancelAfterRecords == Some(p.recordsAccepted) && plan.cancelWrites then
      p.(actions := p.actions + [Cancelled], cancelled := true)
    else p
  }

  function AfterOffer(p: Progress, offer: S.CheckpointOffer): Progress {
    var (t, r) := S.Commit(p.session, offer);
    match r
    case Ok(cursor) =>
      p.(session := t, actions := p.actions + [CommittedCheckpoint(cursor.coversThrough)],
         cursors := p.cursors + [cursor])
    case Err(refusal) =>
      p.(session := S.Withhold(t, offer).0, actions := p.actions + [WithheldCheckpoint(refusal)])
  }

  function AfterAcceptance(p: Progress, event: FieldEvent, accepted: S.AcceptedEvent, plan: Plan): Progress {
    match accepted
    case AcceptedRecord(_, disposition) =>
      if event.RecordFrame? then AfterCancellation(AfterInstall(p, event.record, disposition, plan), plan)
      else p.(rejection := Some(ProtocolSchemaInvalid))
    case AcceptedCheckpoint(offer) => AfterOffer(p, offer)
    case AcceptedDiagnostic(_, severity) => p.(actions := p.actions + [DiagnosticSeen(severity)])
  }

  function AfterEvent(p: Progress, event: FieldEvent, plan: Plan): Progress {
    var (t, r) := S.Accept(p.session, event);
    match r
    case Err(code) => p.(session := t, rejection := Some(code))
    case Ok(accepted) => AfterAcceptance(p.(session := t, events := p.events + [event]), event, accepted, plan)
  }

  function Advance(p: Progress, frame: Frame, plan: Plan): Progress {
    match frame
    case Broken(code) => Fail(p, code)
    case Undecodable(code) => Fail(p, code)
    case Event(event) => AfterEvent(p, event, plan)
  }

  /** Frames are taken one by one until the stream ends or something is rejected. */
  function Drive(p: Progress, frames: seq<Frame>, plan: Plan): Progress {
    if frames == [] then p
    else
      var q := Drive(p, frames[..|frames| - 1], plan);
      if q.rejection.Some? then q else Advance(q, frames[|frames| - 1], plan)
  }

  function Begin(s: S.State, sendFailure: Option<RejectionCode>): Progress {
    var p := Progress(s, [], [], [], None, 0, false);
    if sendFailure.Some? then Fail(p, sendFailure.value) else p
  }

  /** The last actions of a run: its rejection, if any, and its outcome. */
  function Closing(rejection: Option<RejectionCode>, outcome: S.RunOutcome): seq<Observation> {
    (if rejection.Some? then [RejectedRun(rejection.value)] else []) + [ReportedOutcome(outcome)]
  }

  function Conclude(p: Progress, exit: S.ExitObservation): CollectRun {
    var report := S.Finish(p.session, exit);
    var actions := p.actions + Closing(p.rejection, report.outcome);
    CollectRun(report, p.events, p.cursors, p.rejection, actions, p.session.seenKeys)
  }

  /** A manifest that is not the Field's own never starts a session. */
  function Unstarted(code: RejectionCode, seen: map<SourceKey, Fingerprint>): CollectRun {
    CollectRun(S.RunReport(S.RunFailed, None, S.Refused([]), 0, 0), [], [], Some(code), [RejectedRun(code)], seen)
  }

  function RunOf(plan: Plan, manifest: Manifest, registry: Registry, sendFailure: Option<RejectionCode>,
                 frames: seq<Frame>, exit: S.ExitObservation): CollectRun
  {
    var s := S.Initial(plan.request, manifest, IndexOf(manifest, registry), plan.currentState);
    Conclude(Drive(Begin(s, sendFailure), frames, plan), exit)
  }

  // ---- What the loop keeps ----

  /** Ties what core has done so far to the session it did it with. */
  ghost predicate Consistent(s: S.State, events: seq<FieldEvent>, actions: seq<Observation>,
                             cursors: seq<S.CommittedCursor>, policy: DurabilityPolicy)
  {
    && Inv(s)
    && s.recordsBySeq == RecordsIn(events)
    && (forall q :: q in s.durableSeqs <==> NotedBefore(actions, |actions|, q))
    && (forall q :: q in s.durableSeqs ==> policy.Succeeds(q))
    && CommitsFollowNotes(actions, s.recordsBySeq)
    && Commits(actions) == Coverages(cursors)
    && NonDecreasing(Commits(actions))
    && (forall c :: c in Commits(actions) ==> c <= s.lastCommittedCoverage)
    && s.committed == (if cursors == [] then None else Some(cursors[|cursors| - 1]))
  }

  lemma {:induction false} CommitListed(actions: seq<Observation>, i: nat)
    requires i < |actions| && actions[i].CommittedCheckpoint?
    ensures actions[i].coversThrough in Commits(actions)
  {
    if i < |actions| - 1 {
      assert actions[..|actions| - 1][i] == actions[i];
      CommitListed(actions[..|actions| - 1], i);
    }
  }

  lemma {:induction false} CommitsConcat(a: seq<Observation>, b: seq<Observation>)
    ensures Commits(a + b) == Commits(a) + Commits(b)
  {
    if b == [] {
      assert a + b == a;
    } else {
      assert (a + b)[..|a + b| - 1] == a + b[..|b| - 1];
      CommitsConcat(a, b[..|b| - 1]);
    }
  }

  lemma {:induction false} QuietCommits(b: seq<Observation>)
    requires forall i :: 0 <= i < |b| ==> !b[i].CommittedCheckpoint?
    ensures Commits(b) == []
  {
    if b != [] { QuietCommits(b[..|b| - 1]); }
  }

  lemma NotedConcat(a: seq<Observation>, b: seq<Observation>, q: nat)
    ensures NotedBefore(a + b, |a + b|, q) <==> NotedBefore(a, |a|, q) || NotedBefore(b, |b|, q)
    ensures forall i :: 0 <= i <= |a| ==> (NotedBefore(a + b, i, q) <==> NotedBefore(a, i, q))
  {
    if NotedBefore(b, |b|, q) {
      var j :| 0 <= j < |b| && NoteAction(b[j], q);
      assert NoteAction((a + b)[|a| + j], q);
    }
    if NotedBefore(a + b, |a + b|, q) {
      var j :| 0 <= j < |a + b| && NoteAction((a + b)[j], q);
      if j < |a| { assert NoteAction(a[j], q); } else { assert NoteAction(b[j - |a|], q); }
    }
    forall i | 0 <= i <= |a| ensures NotedBefore(a + b, i, q) <==> NotedBefore(a, i, q) {
      if NotedBefore(a, i, q) {
        var j :| 0 <= j < i && NoteAction(a[j], q);
        assert NoteAction((a + b)[j], q);
      }
      if NotedBefore(a + b, i, q) {
        var j :| 0 <= j < i && NoteAction((a + b)[j], q);
        assert NoteAction(a[j], q);
      }
    }
  }

  /** Actions that commit nothing keep the order of commits and notes. */
  lemma QuietActions(actions: seq<Observation>, more: seq<Observation>, records: set<nat>)
    requires CommitsFollowNotes(actions, records)
    requires forall i :: 0 <= i < |more| ==> !more[i].CommittedCheckpoint?
    ensures CommitsFollowNotes(actions + more, records)
    ensures Commits(actions + more) == Commits(actions)
  {
    CommitsConcat(actions, more);
    QuietCommits(more);
    forall i, q | 0 <= i < |actions + more| && (actions + more)[i].CommittedCheckpoint?
                  && q in records && q <= (actions + more)[i].coversThrough
      ensures NotedBefore(actions + more, i, q)
    {
      assert i < |actions|;
      NotedConcat(actions, more, q);
    }
  }

  lemma RecordsSnoc(events: seq<FieldEvent>, e: FieldEvent)
    ensures RecordsIn(events + [e]) == RecordsIn(events) + if e.RecordFrame? then {e.record.seq_} else {}
  {
    assert e in events + [e];
    assert forall f :: f in events ==> f in events + [e];
    forall q | q in RecordsIn(events) ensures q in RecordsIn(events + [e]) {
      var f :| f in events && f.RecordFrame? && f.record.seq_ == q;
      assert f in events + [e];
    }
  }

  /** A new record lands above every commit, so earlier commits stay justified. */
  lemma AcceptKeepsConsistent(s: S.State, event: FieldEvent, events: seq<FieldEvent>, actions: seq<Observation>,
                              cursors: seq<S.CommittedCursor>, policy: DurabilityPolicy)
    requires Consistent(s, events, actions, cursors, policy) && S.Accept(s, event).1.Ok?
    ensures Consistent(S.Accept(s, event).0, events + [event], actions, cursors, policy)
  {
    hide S.Accept, S.PayloadDefect, S.CheckpointDefect, S.Disposition, Inv;
    AcceptInv(s, event);
    AcceptGranted(s, event);
    RecordsSnoc(events, event);
    CoverageBelowLast(s);
    var t := S.Accept(s, event).0;
    forall i, q | 0 <= i < |actions| && actions[i].CommittedCheckpoint? && q in t.recordsBySeq
                  && q <= actions[i].coversThrough
      ensures NotedBefore(actions, i, q)
    {
      CommitListed(actions, i);
      assert q in s.recordsBySeq;
    }
  }

  lemma CoverageBelowLast(s: S.State)
    requires Inv(s)
    ensures s.lastCommittedCoverage <= s.lastSeq
  {
  }

  /** Installing a record: its note makes it durable, a failed write leaves it undurable. */
  lemma InstallKeepsConsistent(s: S.State, events: seq<FieldEvent>, actions: seq<Observation>,
                               cursors: seq<S.CommittedCursor>, policy: DurabilityPolicy,
                               staged: nat, rejected: bool, outcomes: seq<S.ArtifactOutcome>, last: Observation, q: nat)
    requires Consistent(s, events, actions, cursors, policy)
    requires NoteAction(last, q) || last == DurableWriteFailed(q)
    requires NoteAction(last, q) ==> policy.Succeeds(q)
    ensures var t := s.(stagedBytes := staged, rejected := rejected);
            Consistent(if NoteAction(last, q) then S.RecordDurable(t, q) else t,
                       events, actions + (ArtifactActions(outcomes) + [last]), cursors, policy)
  {
    var more := ArtifactActions(outcomes) + [last];
    hide CommitsFollowNotes, Commits, NotedBefore, NonDecreasing, Coverages;
    QuietActions(actions, more, s.recordsBySeq);
    hide ArtifactActions;
    forall p ensures NotedBefore(actions + more, |actions + more|, p)
                     <==> p in s.durableSeqs || (p == q && NoteAction(last, q))
    {
      NotedConcat(actions, more, p);
      NotedLast(outcomes, last, p);
    }
  }

  lemma NotedLast(outcomes: seq<S.ArtifactOutcome>, last: Observation, q: nat)
    ensures var more := ArtifactActions(outcomes) + [last]; NotedBefore(more, |more|, q) <==> NoteAction(last, q)
  {
    var more := ArtifactActions(outcomes) + [last];
    if NoteAction(last, q) { assert NoteAction(more[|more| - 1], q); }
  }

  lemma QuietKeepsConsistent(s: S.State, t: S.State, events: seq<FieldEvent>, actions: seq<Observation>, a: Observation,
                             cursors: seq<S.CommittedCursor>, policy: DurabilityPolicy)
    requires Consistent(s, events, actions, cursors, policy) && Inv(t)
    requires t == s.(pendingOffer := t.pendingOffer, rejected := t.rejected)
    requires !a.CommittedCheckpoint? && forall q :: !NoteAction(a, q)
    ensures Consistent(t, events, actions + [a], cursors, policy)
  {
    hide Inv;
    QuietActions(actions, [a], s.recordsBySeq);
    forall q ensures NotedBefore(actions + [a], |actions + [a]|, q) <==> q in s.durableSeqs {
      NotedConcat(actions, [a], q);
    }
  }

  lemma LoneCommit(records: set<nat>, actions: seq<Observation>, a: Observation)
    requires CommitsFollowNotes(actions, records) && a.CommittedCheckpoint?
    requires forall q :: q in records && q <= a.coversThrough ==> NotedBefore(actions, |actions|, q)
    ensures CommitsFollowNotes(actions + [a], records)
    ensures Commits(actions + [a]) == Commits(actions) + [a.coversThrough]
    ensures forall q :: NotedBefore(actions + [a], |actions + [a]|, q) <==> NotedBefore(actions, |actions|, q)
  {
    assert (actions + [a])[..|actions|] == actions;
    forall q ensures NotedBefore(actions + [a], |actions + [a]|, q) <==> NotedBefore(actions, |actions|, q)
             ensures forall i :: 0 <= i <= |actions| ==>
                       (NotedBefore(actions + [a], i, q) <==> NotedBefore(actions, i, q))
    {
      NotedConcat(actions, [a], q);
    }
  }

  lemma ListedLast(s: seq<nat>, x: nat)
    requires NonDecreasing(s) && forall c :: c in s ==> c <= x
    ensures NonDecreasing(s + [x])
  {
    forall i | 0 <= i < |s| ensures s[i] <= x {
      assert s[i] in s;
    }
  }

  /** A commit happens only when every covered record is durable, hence already noted. */
  lemma CommitKeepsConsistent(s: S.State, offer: S.CheckpointOffer, events: seq<FieldEvent>, actions: seq<Observation>,
                              cursors: seq<S.CommittedCursor>, policy: DurabilityPolicy)
    requires Consistent(s, events, actions, cursors, policy) && S.Commit(s, offer).1.Ok?
    ensures var (t, r) := S.Commit(s, offer);
            Consistent(t, events, actions + [CommittedCheckpoint(r.value.coversThrough)], cursors + [r.value], policy)
  {
    var (t, r) := S.Commit(s, offer);
    CommitInv(s, offer);
    UndurableIsGap(s, offer.coversThrough);
    hide Inv, S.Commit, S.Undurable;
    CommitShape(s, offer);
    var a := CommittedCheckpoint(r.value.coversThrough);
    assert Coverages(cursors + [r.value]) == Coverages(cursors) + [a.coversThrough];
    hide CommitsFollowNotes, Commits, Coverages;
    LoneCommit(s.recordsBySeq, actions, a);
    ListedLast(Commits(actions), a.coversThrough);
    assert Coverages(cursors + [r.value]) == Commits(actions + [a]);
    assert forall c :: c in Commits(actions + [a]) ==> c <= t.lastCommittedCoverage;
    assert CommitsFollowNotes(actions + [a], t.recordsBySeq);
    assert (forall q :: q in t.durableSeqs <==> NotedBefore(actions + [a], |actions + [a]|, q));
    assert t.committed == Some((cursors + [r.value])[|cursors + [r.value]| - 1]);
  }

  lemma CommitShape(s: S.State, offer: S.CheckpointOffer)
    requires S.Commit(s, offer).1.Ok?
    ensures var (t, r) := S.Commit(s, offer);
            r.value.coversThrough == offer.coversThrough == t.lastCommittedCoverage >= s.lastCommittedCoverage
            && t.committed == Some(r.value) && S.Undurable(s, offer.coversThrough) == {}
            && t.recordsBySeq == s.recordsBySeq && t.durableSeqs == s.durableSeqs
  {
  }

  // ---- Session runs ----

  /** Extends a run by one operation, keeping its trace's accepted events. */
  lemma OneMore(init: S.State, ops: seq<Op>, op: Op)
    ensures Run(init, ops + [op]) == Step(Run(init, ops), op).0
    ensures AcceptedEvents(Trace(init, ops + [op]))
         == AcceptedEvents(Trace(init, ops))
            + if op.DoAccept? && S.Accept(Run(init, ops), op.event).1.Ok? then [op.event] else []
  {
    hide S.Accept;
    assert (ops + [op])[..|ops|] == ops;
    var h, e := Trace(init, ops), Entry(op, Step(Run(init, ops), op).1);
    assert (h + [e])[..|h|] == h;
    StepReply(Run(init, ops), op);
  }

  ghost predicate IsSessionRun(init: S.State, s: S.State, events: seq<FieldEvent>) {
    exists ops :: Run(init, ops) == s && AcceptedEvents(Trace(init, ops)) == events
  }

  lemma SessionRunStep(init: S.State, s: S.State, events: seq<FieldEvent>, op: Op)
    requires IsSessionRun(init, s, events)
    ensures IsSessionRun(init, Step(s, op).0,
                         events + if op.DoAccept? && S.Accept(s, op.event).1.Ok? then [op.event] else [])
  {
    hide Step, S.Accept;
    var ops :| Run(init, ops) == s && AcceptedEvents(Trace(init, ops)) == events;
    OneMore(init, ops, op);
  }

  // ---- One step at a time ----

  lemma StartConsistent(request: CollectRequest, manifest: Manifest, index: Index, seen: map<SourceKey, Fingerprint>,
                        policy: DurabilityPolicy)
    ensures Consistent(S.Initial(request, manifest, index, seen), [], [], [], policy)
  {
    InitialInv(request, manifest, index, seen);
  }

  lemma RejectKeepsConsistent(s: S.State, events: seq<FieldEvent>, actions: seq<Observation>,
                              cursors: seq<S.CommittedCursor>, policy: DurabilityPolicy)
    requires Consistent(s, events, actions, cursors, policy)
    ensures Consistent(S.NoteRejection(s), events, actions, cursors, policy)
  {
  }

  lemma AcceptOutcome(s: S.State, event: FieldEvent)
    ensures S.Accept(s, event).1.Err? ==> S.Accept(s, event).0.rejected
    ensures S.Accept(s, event).1.Ok? ==>
              (S.Accept(s, event).1.value.AcceptedRecord? <==> event.RecordFrame?)
              && (event.RecordFrame? ==> S.Accept(s, event).1.value.seq_ == event.record.seq_)
  {
    hide S.Accept, S.PayloadDefect, S.CheckpointDefect, S.Disposition;
    if S.Accept(s, event).1.Err? { AcceptRefused(s, event); } else { AcceptGranted(s, event); }
  }

  lemma RefusalKeepsConsistent(s: S.State, event: FieldEvent, events: seq<FieldEvent>, actions: seq<Observation>,
                               cursors: seq<S.CommittedCursor>, policy: DurabilityPolicy)
    requires Consistent(s, events, actions, cursors, policy) && S.Accept(s, event).1.Err?
    ensures Consistent(S.Accept(s, event).0, events, actions, cursors, policy)
  {
    hide S.Accept, Inv;
    AcceptInv(s, event);
    AcceptRefused(s, event);
  }

  lemma InstallOutcome(s: S.State, results: seq<S.ArtifactResult>)
    ensures var (t, r) := S.ResolveArtifacts(s, results);
            t == s.(stagedBytes := t.stagedBytes, rejected := t.rejected) && (r.Err? ==> t.rejected)
  {
  }

  lemma InstallFailureKeepsConsistent(s: S.State, results: seq<S.ArtifactResult>, events: seq<FieldEvent>,
                                      actions: seq<Observation>, cursors: seq<S.CommittedCursor>,
                                      policy: DurabilityPolicy)
    requires Consistent(s, events, actions, cursors, policy)
    ensures Consistent(S.ResolveArtifacts(s, results).0, events, actions, cursors, policy)
  {
    hide S.Charge;
    ResolveInv(s, results);
  }

  lemma CommitRefusalKeepsConsistent(s: S.State, offer: S.CheckpointOffer, events: seq<FieldEvent>,
                                     actions: seq<Observation>, cursors: seq<S.CommittedCursor>,
                                     policy: DurabilityPolicy)
    requires Consistent(s, events, actions, cursors, policy) && S.Commit(s, offer).1.Err?
    ensures var (t, r) := S.Commit(s, offer);
            Consistent(t, events, actions + [WithheldCheckpoint(r.error)], cursors, policy)
  {
    hide S.Undurable;
    CommitInv(s, offer);
    var (t, r) := S.Commit(s, offer);
    QuietKeepsConsistent(s, t, events, actions, WithheldCheckpoint(r.error), cursors, policy);
  }

  lemma WithholdKeepsConsistent(s: S.State, offer: S.CheckpointOffer, events: seq<FieldEvent>,
                                actions: seq<Observation>, cursors: seq<S.CommittedCursor>, policy: DurabilityPolicy)
    requires Consistent(s, events, actions, cursors, policy)
    ensures Consistent(S.Withhold(s, offer).0, events, actions, cursors, policy)
  {
  }

  lemma ReportIsSafe(s: S.State, run: CollectRun, policy: DurabilityPolicy, exit: S.ExitObservation)
    requires Consistent(s, run.events, run.actions, run.committedCursors, policy)
    requires run.report == S.Finish(s, exit)
    requires run.rejection.Some? ==> s.rejected
    requires run.committedCursors == EarnedCommits(run.events, policy)
    ensures SafeRun(run, policy)
  {
    hide CommitsFollowNotes, Commits, EarnedCommits, S.Deletion, S.Outcome;
    assert Run(s, []) == s;
    if s.rejected { RejectionIsFinal(s, [], exit); }
    if run.report.deletion.Authorized? { DA.AuthorityImpliesCompleteAndCommitted(s, [], exit); }
    forall c | c in run.committedCursors && policy.FailAt? && policy.failing in s.recordsBySeq
      ensures c.coversThrough < policy.failing
    {
      var i :| 0 <= i < |run.committedCursors| && run.committedCursors[i] == c;
      assert Coverages(run.committedCursors)[i] in Commits(run.actions);
      assert policy.failing !in s.durableSeqs;
    }
  }

  // ---- Every step keeps it ----

  ghost predicate Safe(init: S.State, p: Progress, policy: DurabilityPolicy) {
    && Consistent(p.session, p.events, p.actions, p.cursors, policy)
    && (p.rejection.Some? ==> p.session.rejected)
    && IsSessionRun(init, p.session, p.events)
  }

  lemma FailSafe(init: S.State, p: Progress, code: RejectionCode, policy: DurabilityPolicy)
    requires Safe(init, p, policy)
    ensures Safe(init, Fail(p, code), policy)
  {
    hide Consistent, IsSessionRun;
    RejectKeepsConsistent(p.session, p.events, p.actions, p.cursors, policy);
    SessionRunStep(init, p.session, p.events, DoNoteRejection);
    assert p.events + [] == p.events;
  }

  lemma InstallSafe(init: S.State, p: Progress, record: RecordEvent, disposition: S.RecordDisposition, plan: Plan)
    requires Safe(init, p, plan.durability) && p.rejection.None?
    ensures Safe(init, AfterInstall(p, record, disposition, plan), plan.durability)
  {
    hide Consistent, IsSessionRun, S.ResolveArtifacts, ArtifactActions, S.RecordDurable;
    var results := ResultsFor(plan, record);
    var (resolved, r) := S.ResolveArtifacts(p.session, results);
    InstallOutcome(p.session, results);
    SessionRunStep(init, p.session, p.events, DoResolve(results));
    assert p.events + [] == p.events;
    if r.Err? {
      InstallFailureKeepsConsistent(p.session, results, p.events, p.actions, p.cursors, plan.durability);
    } else {
      var wrote := plan.durability.Succeeds(record.seq_);
      var last := if wrote then NoteFor(disposition, record.seq_) else DurableWriteFailed(record.seq_);
      InstallKeepsConsistent(p.session, p.events, p.actions, p.cursors, plan.durability, resolved.stagedBytes,
                             resolved.rejected, r.value, last, record.seq_);
      SessionRunStep(init, resolved, p.events, DoDurable(record.seq_));
    }
  }

  lemma NoteSafe(init: S.State, p: Progress, a: Observation, policy: DurabilityPolicy)
    requires Safe(init, p, policy)
    requires !a.CommittedCheckpoint? && forall q :: !NoteAction(a, q)
    ensures Safe(init, p.(actions := p.actions + [a]), policy)
    ensures forall b :: Safe(init, p.(actions := p.actions + [a], cancelled := b), policy)
  {
    hide IsSessionRun;
    QuietKeepsConsistent(p.session, p.session, p.events, p.actions, a, p.cursors, policy);
  }

  lemma OfferSafe(init: S.State, p: Progress, offer: S.CheckpointOffer, policy: DurabilityPolicy)
    requires Safe(init, p, policy) && p.rejection.None?
    ensures Safe(init, AfterOffer(p, offer), policy)
  {
    hide IsSessionRun, S.Commit, S.Withhold, Inv, Consistent;
    var (t, r) := S.Commit(p.session, offer);
    SessionRunStep(init, p.session, p.events, DoCommit(offer));
    assert p.events + [] == p.events;
    if r.Ok? {
      CommitKeepsConsistent(p.session, offer, p.events, p.actions, p.cursors, policy);
    } else {
      CommitRefusalKeepsConsistent(p.session, offer, p.events, p.actions, p.cursors, policy);
      SessionRunStep(init, t, p.events, DoWithhold(offer));
      WithholdKeepsConsistent(t, offer, p.events, p.actions + [WithheldCheckpoint(r.error)], p.cursors, policy);
    }
  }

  lemma AdvanceSafe(init: S.State, p: Progress, frame: Frame, plan: Plan)
    requires Safe(init, p, plan.durability) && p.rejection.None?
    ensures Safe(init, Advance(p, frame, plan), plan.durability)
  {
    hide Consistent, IsSessionRun, S.Accept, AfterInstall, AfterOffer;
    var policy := plan.durability;
    match frame
    case Broken(code) => FailSafe(init, p, code, policy);
    case Undecodable(code) => FailSafe(init, p, code, policy);
    case Event(event) =>
      var (t, r) := S.Accept(p.session, event);
      AcceptOutcome(p.session, event);
      SessionRunStep(init, p.session, p.events, DoAccept(event));
      if r.Err? {
        RefusalKeepsConsistent(p.session, event, p.events, p.actions, p.cursors, policy);
        assert p.events + [] == p.events;
      } else {
        AcceptKeepsConsistent(p.session, event, p.events, p.actions, p.cursors, policy);
        var q := p.(session := t, events := p.events + [event]);
        assert Safe(init, q, policy);
        AcceptanceSafe(init, q, event, r.value, plan);
      }
  }

  lemma AcceptanceSafe(init: S.State, q: Progress, event: FieldEvent, accepted: S.AcceptedEvent, plan: Plan)
    requires Safe(init, q, plan.durability) && q.rejection.None?
    requires accepted.AcceptedRecord? <==> event.RecordFrame?
    ensures Safe(init, AfterAcceptance(q, event, accepted, plan), plan.durability)
  {
    hide Safe, AfterInstall, AfterOffer;
    match accepted
    case AcceptedRecord(_, disposition) =>
      InstallSafe(init, q, event.record, disposition, plan);
      NoteSafe(init, AfterInstall(q, event.record, disposition, plan), Cancelled, plan.durability);
    case AcceptedCheckpoint(offer) => OfferSafe(init, q, offer, plan.durability);
    case AcceptedDiagnostic(_, severity) => NoteSafe(init, q, DiagnosticSeen(severity), plan.durability);
  }

  lemma {:induction false} DriveSafe(init: S.State, p: Progress, frames: seq<Frame>, plan: Plan)
    requires Safe(init, p, plan.durability)
    ensures Safe(init, Drive(p, frames, plan), plan.durability)
    decreases |frames|
  {
    hide Safe, Advance;
    if frames != [] {
      var n := |frames| - 1;
      DriveSafe(init, p, frames[..n], plan);
      var q := Drive(p, frames[..n], plan);
      if q.rejection.None? { AdvanceSafe(init, q, frames[n], plan); }
    }
  }

  /** Once something is rejected no later frame is read. */
  lemma {:induction false} StoppedDrive(p: Progress, frames: seq<Frame>, n: nat, plan: Plan)
    requires n <= |frames|
    requires Drive(p, frames[..n], plan).rejection.Some? || n == |frames|
    ensures Drive(p, frames, plan) == Drive(p, frames[..n], plan)
    decreases |frames|
  {
    hide Advance;
    if n == |frames| {
      assert frames[..n] == frames;
    } else {
      assert frames[..|frames| - 1][..n] == frames[..n];
      StoppedDrive(p, frames[..|frames| - 1], n, plan);
    }
  }

  // ---- Nothing earned is withheld ----

  /** Until something is rejected every accepted record is durable but the one whose write fails. */
  ghost predicate Prompt(p: Progress, policy: DurabilityPolicy) {
    && p.cursors == EarnedCommits(p.events, policy)
    && (p.rejection.None? ==>
          !p.session.rejected && p.session.pendingOffer.None?
          && forall q :: q in p.session.recordsBySeq && policy.Succeeds(q) ==> q in p.session.durableSeqs)
  }

  lemma EarnedSnoc(events: seq<FieldEvent>, e: FieldEvent, policy: DurabilityPolicy)
    ensures EarnedCommits(events + [e], policy)
         == EarnedCommits(events, policy)
            + if e.CheckpointFrame? && !Blocked(events, policy, e.checkpoint.coversThrough)
              then [CursorOf(e.checkpoint)] else []
  {
    hide Blocked;
    assert (events + [e])[..|events|] == events;
  }

  /** With every other write durable, an offer is refused exactly when it reaches the failed one. */
  lemma OfferGrantedExactly(s: S.State, offer: S.CheckpointOffer, policy: DurabilityPolicy)
    requires Inv(s) && s.pendingOffer == Some(offer) && !s.rejected
    requires forall q :: q in s.durableSeqs ==> policy.Succeeds(q)
    requires forall q :: q in s.recordsBySeq && policy.Succeeds(q) ==> q in s.durableSeqs
    ensures S.Commit(s, offer).1.Err?
            <==> policy.FailAt? && policy.failing in s.recordsBySeq && policy.failing <= offer.coversThrough
  {
    UndurableIsGap(s, offer.coversThrough);
  }

  lemma InstallPrompt(p: Progress, record: RecordEvent, disposition: S.RecordDisposition, plan: Plan)
    requires p.cursors == EarnedCommits(p.events, plan.durability)
    requires p.rejection.None? && !p.session.rejected && p.session.pendingOffer.None?
    requires forall q :: q in p.session.recordsBySeq && plan.durability.Succeeds(q) ==>
               q in p.session.durableSeqs || q == record.seq_
    ensures Prompt(AfterInstall(p, record, disposition, plan), plan.durability)
  {
    hide EarnedCommits, S.Charge;
  }

  /** A checkpoint earns its commit exactly when core grants its offer. */
  lemma OfferEarns(s: S.State, before: seq<FieldEvent>, c: CheckpointEvent, policy: DurabilityPolicy)
    requires Inv(s) && s.pendingOffer == Some(S.OfferOf(c)) && !s.rejected && s.recordsBySeq == RecordsIn(before)
    requires forall q :: q in s.durableSeqs ==> policy.Succeeds(q)
    requires forall q :: q in s.recordsBySeq && policy.Succeeds(q) ==> q in s.durableSeqs
    ensures EarnedCommits(before + [CheckpointFrame(c)], policy)
         == EarnedCommits(before, policy) + if S.Commit(s, S.OfferOf(c)).1.Ok? then [CursorOf(c)] else []
  {
    OfferGrantedExactly(s, S.OfferOf(c), policy);
    EarnedSnoc(before, CheckpointFrame(c), policy);
    hide EarnedCommits, Inv, S.Commit, RecordsIn;
  }

  lemma OfferPrompt(p: Progress, before: seq<FieldEvent>, c: CheckpointEvent, policy: DurabilityPolicy)
    requires Consistent(p.session, p.events, p.actions, p.cursors, policy)
    requires p.events == before + [CheckpointFrame(c)] && p.cursors == EarnedCommits(before, policy)
    requires p.rejection.None? && !p.session.rejected && p.session.pendingOffer == Some(S.OfferOf(c))
    requires forall q :: q in p.session.recordsBySeq && policy.Succeeds(q) ==> q in p.session.durableSeqs
    ensures Prompt(AfterOffer(p, S.OfferOf(c)), policy)
  {
    var offer := S.OfferOf(c);
    assert offer.cursor == c.cursor && offer.cursorFormatVersion == c.cursorFormatVersion;
    assert offer.coversThrough == c.coversThrough;
    RecordsSnoc(before, CheckpointFrame(c));
    hide EarnedCommits, Inv, CommitsFollowNotes, NotedBefore, S.OfferOf, Coverages, NonDecreasing;
    OfferEarns(p.session, before, c, policy);
    hide Consistent;
    var (t, r) := S.Commit(p.session, offer);
    OfferShape(p.session, offer);
    hide S.Commit;
  }

  lemma OfferShape(s: S.State, offer: S.CheckpointOffer)
    requires s.pendingOffer == Some(offer) && !s.rejected
    ensures var (t, r) := S.Commit(s, offer);
            t.rejected == s.rejected && t.recordsBySeq == s.recordsBySeq && t.durableSeqs == s.durableSeqs
            && (r.Ok? ==> t.pendingOffer.None?
                          && r.value == S.CommittedCursor(offer.cursor, offer.cursorFormatVersion, offer.coversThrough))
            && (r.Err? ==> t.pendingOffer == Some(offer))
  {
    hide S.Undurable;
  }

  lemma EventPrompt(p: Progress, event: FieldEvent, plan: Plan)
    requires Consistent(p.session, p.events, p.actions, p.cursors, plan.durability)
    requires Prompt(p, plan.durability) && p.rejection.None?
    ensures Prompt(AfterEvent(p, event, plan), plan.durability)
  {
    var policy := plan.durability;
    var (t, r) := S.Accept(p.session, event);
    hide S.Accept, S.PayloadDefect, S.CheckpointDefect, S.Disposition, S.Commit;
    hide Consistent, EarnedCommits, AfterInstall, AfterOffer;
    if r.Ok? {
      AcceptGranted(p.session, event);
      AcceptKeepsConsistent(p.session, event, p.events, p.actions, p.cursors, policy);
      EarnedSnoc(p.events, event, policy);
      var q := p.(session := t, events := p.events + [event]);
      match event
      case RecordFrame(record) =>
        InstallPrompt(q, record, r.value.disposition, plan);
      case CheckpointFrame(c) => OfferPrompt(q, p.events, c, policy);
      case DiagnosticFrame(_) =>
    }
  }

  lemma {:induction false} DrivePrompt(init: S.State, p: Progress, frames: seq<Frame>, plan: Plan)
    requires Safe(init, p, plan.durability) && Prompt(p, plan.durability)
    ensures Prompt(Drive(p, frames, plan), plan.durability)
    decreases |frames|
  {
    hide AfterEvent, Consistent, IsSessionRun, EarnedCommits;
    if frames != [] {
      var n := |frames| - 1;
      DrivePrompt(init, p, frames[..n], plan);
      DriveSafe(init, p, frames[..n], plan);
      var q := Drive(p, frames[..n], plan);
      if q.rejection.None? && frames[n].Event? { EventPrompt(q, frames[n].event, plan); }
    }
  }

  // ---- What each note says ----

  /** What is current after some accepted events: each record replaces what its source key held. */
  function Asserted(seed: map<SourceKey, Fingerprint>, events: seq<FieldEvent>): map<SourceKey, Fingerprint> {
    if events == [] then seed
    else
      var e, before := events[|events| - 1], Asserted(seed, events[..|events| - 1]);
      if e.RecordFrame? then before[KeyOf(e.record.payload) := e.record.payload] else before
  }

  predicate Holds(current: map<SourceKey, Fingerprint>, p: RecordPayload) {
    KeyOf(p) in current && current[KeyOf(p)] == p
  }

  /** Which action a record may have behind it, given what was current before it. */
  predicate Warrants(current: map<SourceKey, Fingerprint>, p: RecordPayload, a: Observation) {
    match a
    case WroteNote(_) => p.change == Upsert && !Holds(current, p)
    case RemovedNote(_) => p.change == Delete && !Holds(current, p)
    case KeptNote(_) => Holds(current, p)
    case _ => true
  }

  /** The accepted record of that sequence number is there, and it warrants the action. */
  predicate CausedAt(a: Observation, q: nat, seed: map<SourceKey, Fingerprint>, events: seq<FieldEvent>, i: nat)
    requires i < |events|
  {
    && events[i].RecordFrame? && events[i].record.seq_ == q
    && Warrants(Asserted(seed, events[..i]), events[i].record.payload, a)
  }

  predicate HasRecord(a: Observation, q: nat, seed: map<SourceKey, Fingerprint>, events: seq<FieldEvent>) {
    exists i: nat :: i < |events| && CausedAt(a, q, seed, events, i)
  }

  /**
   * A written Note has an accepted upsert of something new behind it, a removed one an accepted
   * deletion that is new, and a kept one a record that says what was last asserted under its key.
   */
  predicate HasCause(a: Observation, seed: map<SourceKey, Fingerprint>, events: seq<FieldEvent>) {
    match a
    case WroteNote(q) => HasRecord(a, q, seed, events)
    case RemovedNote(q) => HasRecord(a, q, seed, events)
    case KeptNote(q) => HasRecord(a, q, seed, events)
    case DurableWriteFailed(q) => HasRecord(a, q, seed, events)
    case _ => true
  }

  predicate AllCaused(actions: seq<Observation>, seed: map<SourceKey, Fingerprint>, events: seq<FieldEvent>) {
    forall i :: 0 <= i < |actions| ==> HasCause(actions[i], seed, events)
  }

  /** What the session holds as current is what was asserted, and every action so far has its cause. */
  predicate Explained(p: Progress, seed: map<SourceKey, Fingerprint>) {
    p.session.seenKeys == Asserted(seed, p.events) && AllCaused(p.actions, seed, p.events)
  }

  lemma CausesStay(actions: seq<Observation>, seed: map<SourceKey, Fingerprint>, events: seq<FieldEvent>, e: FieldEvent)
    requires AllCaused(actions, seed, events)
    ensures AllCaused(actions, seed, events + [e])
  {
    hide Warrants, Asserted;
    forall a, q | HasRecord(a, q, seed, events) ensures HasRecord(a, q, seed, events + [e]) {
      var i: nat :| i < |events| && CausedAt(a, q, seed, events, i);
      assert (events + [e])[..i] == events[..i];
      assert CausedAt(a, q, seed, events + [e], i);
    }
    hide HasRecord;
  }

  lemma DispositionWarrants(s: S.State, p: RecordPayload, q: nat)
    requires S.Disposition(s, p).Some?
    ensures Warrants(s.seenKeys, p, NoteFor(S.Disposition(s, p).value, q))
  {
  }

  /** An accepted event asserts its record, and its disposition is warranted by what was current before. */
  lemma AcceptanceAsserts(s: S.State, seed: map<SourceKey, Fingerprint>, events: seq<FieldEvent>, event: FieldEvent)
    requires s.seenKeys == Asserted(seed, events) && S.Accept(s, event).1.Ok?
    ensures var (t, r) := S.Accept(s, event);
            t.seenKeys == Asserted(seed, events + [event])
            && (r.value.AcceptedRecord? <==> event.RecordFrame?)
            && (event.RecordFrame? ==>
                  CausedAt(NoteFor(r.value.disposition, event.record.seq_), event.record.seq_,
                           seed, events + [event], |events|)
                  && CausedAt(DurableWriteFailed(event.record.seq_), event.record.seq_,
                              seed, events + [event], |events|))
  {
    AcceptGranted(s, event);
    assert (events + [event])[..|events|] == events;
    if event.RecordFrame? { DispositionWarrants(s, event.record.payload, event.record.seq_); }
    hide S.Accept, S.PayloadDefect, S.CheckpointDefect, S.Disposition, S.OfferOf, NoteFor, KeyOf;
  }

  lemma InstallExplained(p: Progress, record: RecordEvent, disposition: S.RecordDisposition, plan: Plan,
                         seed: map<SourceKey, Fingerprint>, i: nat)
    requires Explained(p, seed) && i < |p.events|
    requires CausedAt(NoteFor(disposition, record.seq_), record.seq_, seed, p.events, i)
    requires CausedAt(DurableWriteFailed(record.seq_), record.seq_, seed, p.events, i)
    ensures Explained(AfterInstall(p, record, disposition, plan), seed)
  {
    hide S.Charge, Asserted, CausedAt;
    assert HasRecord(NoteFor(disposition, record.seq_), record.seq_, seed, p.events);
    assert HasRecord(DurableWriteFailed(record.seq_), record.seq_, seed, p.events);
    hide HasRecord;
  }

  lemma OfferExplained(p: Progress, offer: S.CheckpointOffer, seed: map<SourceKey, Fingerprint>)
    requires Explained(p, seed)
    ensures Explained(AfterOffer(p, offer), seed)
  {
    hide S.Undurable, Asserted, HasRecord;
  }

  lemma EventExplained(p: Progress, event: FieldEvent, plan: Plan, seed: map<SourceKey, Fingerprint>)
    requires Explained(p, seed)
    ensures Explained(AfterEvent(p, event, plan), seed)
  {
    var (t, r) := S.Accept(p.session, event);
    hide S.Accept, S.Commit, AfterInstall, AfterOffer, HasRecord, CausedAt, Asserted, NoteFor;
    if r.Err? {
      AcceptRefused(p.session, event);
    } else {
      AcceptanceAsserts(p.session, seed, p.events, event);
      CausesStay(p.actions, seed, p.events, event);
      var q := p.(session := t, events := p.events + [event]);
      assert Explained(q, seed);
      match r.value
      case AcceptedRecord(_, disposition) =>
        InstallExplained(q, event.record, disposition, plan, seed, |p.events|);
      case AcceptedCheckpoint(offer) => OfferExplained(q, offer, seed);
      case AcceptedDiagnostic(_, _) =>
    }
  }

  lemma {:induction false} DriveExplained(p: Progress, frames: seq<Frame>, plan: Plan,
                                          seed: map<SourceKey, Fingerprint>)
    requires Explained(p, seed)
    ensures Explained(Drive(p, frames, plan), seed)
    decreases |frames|
  {
    hide AfterEvent, Asserted, AllCaused;
    if frames != [] {
      var n := |frames| - 1;
      DriveExplained(p, frames[..n], plan, seed);
      var q := Drive(p, frames[..n], plan);
      if q.rejection.None? && frames[n].Event? { EventExplained(q, frames[n].event, plan, seed); }
    }
  }

  /**
   * Every note core takes, in any run, has an accepted record behind it that warrants it against what
   * was asserted before, and the state the run leaves current is what its records asserted, in order.
   */
  lemma EveryNoteHasCause(plan: Plan, manifest: Manifest, registry: Registry, sendFailure: Option<RejectionCode>,
                          frames: seq<Frame>, exit: S.ExitObservation)
    ensures var run := RunOf(plan, manifest, registry, sendFailure, frames, exit);
            AllCaused(run.actions, plan.currentState, run.events)
            && run.currentState == Asserted(plan.currentState, run.events)
  {
    hide S.Finish, Drive, HasRecord;
    var init := S.Initial(plan.request, manifest, IndexOf(manifest, registry), plan.currentState);
    DriveExplained(Begin(init, sendFailure), frames, plan, plan.currentState);
  }

  /**
   * Whatever the Field sends and whichever durable write fails: a cursor is committed only after
   * every record it covers was noted, every checkpoint no failed write stands below is committed,
   * cursors never move backwards, and the run is a session run.
   */
  lemma EveryRunIsSafe(plan: Plan, manifest: Manifest, registry: Registry, sendFailure: Option<RejectionCode>,
                       frames: seq<Frame>, exit: S.ExitObservation)
    ensures var run := RunOf(plan, manifest, registry, sendFailure, frames, exit);
            var init := S.Initial(plan.request, manifest, IndexOf(manifest, registry), plan.currentState);
            SafeRun(run, plan.durability)
            && exists s :: IsSessionRun(init, s, run.events) && run.report == S.Finish(s, exit)
                           && run.currentState == s.seenKeys
  {
    hide Advance, Consistent, S.Finish, IsSessionRun, SafeRun;
    var init := S.Initial(plan.request, manifest, IndexOf(manifest, registry), plan.currentState);
    StartConsistent(plan.request, manifest, IndexOf(manifest, registry), plan.currentState, plan.durability);
    StartIsRun(init);
    var p := Progress(init, [], [], [], None, 0, false);
    if sendFailure.Some? { FailSafe(init, p, sendFailure.value, plan.durability); }
    DriveSafe(init, Begin(init, sendFailure), frames, plan);
    DrivePrompt(init, Begin(init, sendFailure), frames, plan);
    ConcludeSafe(init, Drive(Begin(init, sendFailure), frames, plan), plan.durability, exit);
  }

  lemma StartIsRun(init: S.State)
    ensures IsSessionRun(init, init, [])
  {
    assert Run(init, []) == init && AcceptedEvents(Trace(init, [])) == [];
  }

  /** Closing actions take no note and commit nothing. */
  lemma ClosingConsistent(s: S.State, events: seq<FieldEvent>, actions: seq<Observation>,
                          cursors: seq<S.CommittedCursor>, policy: DurabilityPolicy,
                          rejection: Option<RejectionCode>, outcome: S.RunOutcome)
    requires Consistent(s, events, actions, cursors, policy)
    ensures Consistent(s, events, actions + Closing(rejection, outcome), cursors, policy)
  {
    assert Inv(s);
    hide Consistent, Inv;
    var last := ReportedOutcome(outcome);
    if rejection.None? {
      QuietKeepsConsistent(s, s, events, actions, last, cursors, policy);
      assert actions + [last] == actions + Closing(rejection, outcome);
    } else {
      var first := RejectedRun(rejection.value);
      QuietKeepsConsistent(s, s, events, actions, first, cursors, policy);
      QuietKeepsConsistent(s, s, events, actions + [first], last, cursors, policy);
      assert actions + [first] + [last] == actions + Closing(rejection, outcome);
    }
  }

  lemma ConcludeSafe(init: S.State, p: Progress, policy: DurabilityPolicy, exit: S.ExitObservation)
    requires Safe(init, p, policy) && Prompt(p, policy)
    ensures SafeRun(Conclude(p, exit), policy)
  {
    hide Consistent, S.Finish, IsSessionRun, SafeRun, Closing, Commits, EarnedCommits;
    var run := Conclude(p, exit);
    ClosingConsistent(p.session, p.events, p.actions, p.cursors, policy, p.rejection, run.report.outcome);
    ReportIsSafe(p.session, run, policy, exit);
  }

  /** What every finished run shows, read off its own report. */
  ghost predicate SafeRun(run: CollectRun, policy: DurabilityPolicy) {
    // Every accepted record a cursor covers was noted before that cursor was committed.
    && CommitsFollowNotes(run.actions, RecordsIn(run.events))
    // No cursor ever reaches a record whose durable write failed.
    && (policy.FailAt? && policy.failing in RecordsIn(run.events) ==>
          forall c :: c in run.committedCursors ==> c.coversThrough < policy.failing)
    // The reported cursors are the committed ones, in order, and never move backwards.
    && Commits(run.actions) == Coverages(run.committedCursors) && NonDecreasing(Coverages(run.committedCursors))
    && run.report.committedCursor
       == (if run.committedCursors == [] then None else Some(run.committedCursors[|run.committedCursors| - 1]))
    // And they are, text and version included, those of exactly the accepted checkpoints no failed write stands below.
    && run.committedCursors == EarnedCommits(run.events, policy)
    // A note is only ever taken for a write that completed.
    && (forall q :: NotedBefore(run.actions, |run.actions|, q) ==> policy.Succeeds(q))
    // A failed run reports failure and deletes nothing.
    && (run.rejection.Some? ==> run.report.outcome == S.RunFailed && run.report.deletion.Refused?)
    // Authority to delete comes only with every covered record noted.
    && (run.report.deletion.Authorized? ==>
          run.report.committedCursor.Some?
          && forall q :: q in RecordsIn(run.events) && q <= run.report.committedCursor.value.coversThrough ==>
               NotedBefore(run.actions, |run.actions|, q))
  }

  /** The run's whole result, and that it is safe. */
  lemma RunIsSafe(plan: Plan, manifest: Manifest, registry: Registry, sendFailure: Option<RejectionCode>,
                  frames: seq<Frame>, exit: S.ExitObservation)
    ensures var run := RunOf(plan, manifest, registry, sendFailure, frames, exit);
            var init := S.Initial(plan.request, manifest, IndexOf(manifest, registry), plan.currentState);
            SafeRun(run, plan.durability) && run == Conclude(Drive(Begin(init, sendFailure), frames, plan), exit)
  {
    hide SafeRun, Drive, Begin, Conclude, S.Initial, IsSessionRun;
    EveryRunIsSafe(plan, manifest, registry, sendFailure, frames, exit);
  }

  lemma NothingDriven(p: Progress, plan: Plan)
    ensures Drive(p, [], plan) == p
  {
  }

  lemma DriveOn(p: Progress, frames: seq<Frame>, n: nat, plan: Plan)
    requires n < |frames| && Drive(p, frames[..n], plan).rejection.None?
    ensures Drive(p, frames[..n + 1], plan) == Advance(Drive(p, frames[..n], plan), frames[n], plan)
  {
    hide Advance;
    assert frames[..n + 1][..n] == frames[..n];
  }

  lemma UnstartedIsSafe(code: RejectionCode, seen: map<SourceKey, Fingerprint>, policy: DurabilityPolicy)
    ensures SafeRun(Unstarted(code, seen), policy)
  {
    assert [RejectedRun(code)][..0] == [];
  }

  // ---- The loop as core runs it ----

  /** Resolves a record's artifacts, then writes its Note. */
  method Install(session: CollectSession, record: RecordEvent, disposition: S.RecordDisposition, plan: Plan,
                 ghost p: Progress)
    returns (failure: Option<RejectionCode>, actions: seq<Observation>)
    requires session.Valid() && p.session == session.View() && p.rejection.None?
    modifies session
    ensures session.Valid()
    ensures AfterInstall(p, record, disposition, plan)
         == p.(session := session.View(), actions := p.actions + actions, rejection := failure,
               recordsAccepted := p.recordsAccepted + if failure.None? then 1 else 0)
  {
    hide S.Charge;
    var resolved := session.ResolveReferences(ResultsFor(plan, record));
    failure, actions := None, [];
    if resolved.Err? {
      assert p.actions + [] == p.actions;
      return Some(resolved.error), [];
    }
    var outcomes := resolved.value;
    for i := 0 to |outcomes|
      invariant actions == ArtifactActions(outcomes[..i])
    {
      actions := actions + [ArtifactAction(outcomes[i])];
      assert ArtifactActions(outcomes[..i + 1]) == ArtifactActions(outcomes[..i]) + [ArtifactAction(outcomes[i])];
    }
    assert outcomes[..|outcomes|] == outcomes;
    if plan.durability.Succeeds(record.seq_) {
      actions := actions + [NoteFor(disposition, record.seq_)];
      session.MarkDurable(record.seq_);
    } else {
      actions := actions + [DurableWriteFailed(record.seq_)];
    }
  }

  /** Commits an offer, or withholds it when core refuses. */
  method Decide(session: CollectSession, offer: S.CheckpointOffer, ghost p: Progress)
    returns (action: Observation, cursor: Option<S.CommittedCursor>)
    requires session.Valid() && p.session == session.View()
    modifies session
    ensures session.Valid()
    ensures AfterOffer(p, offer)
         == p.(session := session.View(), actions := p.actions + [action],
               cursors := if cursor.Some? then p.cursors + [cursor.value] else p.cursors)
  {
    hide S.Commit, Inv;
    var committed := session.CommitOffer(offer);
    match committed {
      case Ok(committedCursor) =>
        action, cursor := CommittedCheckpoint(committedCursor.coversThrough), Some(committedCursor);
      case Err(refusal) =>
        action, cursor := WithheldCheckpoint(refusal), None;
        var _ := session.WithholdOffer(offer);
    }
  }

  /** One decoded event: accepted and acted upon, or refused. */
  method TakeEvent(session: CollectSession, event: FieldEvent, plan: Plan, ghost p: Progress,
                   recordsAccepted: nat, cancelled: bool)
    returns (kept: seq<FieldEvent>, taken: seq<Observation>, cursors: seq<S.CommittedCursor>,
             failure: Option<RejectionCode>, accepted: nat, cancelledNow: bool)
    requires session.Valid() && p.session == session.View() && p.rejection.None?
    requires p.recordsAccepted == recordsAccepted && p.cancelled == cancelled
    modifies session
    ensures session.Valid()
    ensures AfterEvent(p, event, plan)
         == Progress(session.View(), p.events + kept, p.actions + taken, p.cursors + cursors,
                     failure, accepted, cancelledNow)
  {
    hide S.Accept, AfterInstall, AfterOffer, Inv;
    kept, taken, cursors, failure, accepted, cancelledNow := [], [], [], None, recordsAccepted, cancelled;
    assert p.actions + [] == p.actions && p.cursors + [] == p.cursors && p.events + [] == p.events;
    var answer := session.AcceptEvent(event);
    if answer.Err? {
      failure := Some(answer.error);
      return;
    }
    kept := [event];
    ghost var q := p.(session := session.View(), events := p.events + kept);
    match answer.value {
      case AcceptedRecord(seq_, disposition) =>
        if !event.RecordFrame? {
          failure := Some(ProtocolSchemaInvalid);
          return;
        }
        failure, taken := Install(session, event.record, disposition, plan, q);
        if failure.Some? { return; }
        accepted := recordsAccepted + 1;
        if !cancelled && plan.cancelAfterRecords == Some(accepted) && plan.cancelWrites {
          assert p.actions + (taken + [Cancelled]) == p.actions + taken + [Cancelled];
          taken := taken + [Cancelled];
          cancelledNow := true;
        }
      case AcceptedCheckpoint(offer) =>
        var action, cursor := Decide(session, offer, q);
        taken := [action];
        if cursor.Some? { cursors := [cursor.value]; }
      case AcceptedDiagnostic(seq_, severity) =>
        taken := [DiagnosticSeen(severity)];
    }
  }

  /** Runs a collect run to its end. */
  method Collect(plan: Plan, manifest: Manifest, registry: Registry, sendFailure: Option<RejectionCode>,
                 frames: seq<Frame>, exit: S.ExitObservation)
    returns (run: CollectRun)
    ensures OwnsItsDeclarations(manifest) ==> run == RunOf(plan, manifest, registry, sendFailure, frames, exit)
    ensures !OwnsItsDeclarations(manifest) ==>
              exists code :: FirstDefect(manifest, code) && run == Unstarted(code, plan.currentState)
    ensures SafeRun(run, plan.durability)
  {
    hide AfterEvent, S.Finish, SafeRun, Inv, S.Initial, Drive, RunOf, FirstDefect, OwnsItsDeclarations, IndexOf;
    RunIsSafe(plan, manifest, registry, sendFailure, frames, exit);
    var started := CollectSession.New(plan.request, manifest, registry, plan.currentState);
    if started.Err? {
      run := Unstarted(started.error, plan.currentState);
      UnstartedIsSafe(started.error, plan.currentState, plan.durability);
      return;
    }
    var session := started.value;
    var events, actions, cursors := [], [], [];
    var rejection: Option<RejectionCode> := None;
    if sendFailure.Some? {
      session.RejectRun();
      rejection := sendFailure;
    }
    var recordsAccepted: nat, cancelled, next := 0, false, 0;
    ghost var start := Progress(session.View(), events, actions, cursors, rejection, recordsAccepted, cancelled);
    assert frames[..0] == [];
    NothingDriven(start, plan);
    while rejection.None? && next < |frames|
      invariant 0 <= next <= |frames|
      invariant fresh(session) && session.Valid()
      invariant Progress(session.View(), events, actions, cursors, rejection, recordsAccepted, cancelled)
             == Drive(start, frames[..next], plan)
      decreases |frames| - next
    {
      var frame := frames[next];
      ghost var p := Progress(session.View(), events, actions, cursors, rejection, recordsAccepted, cancelled);
      DriveOn(start, frames, next, plan);
      next := next + 1;
      match frame {
        case Broken(code) =>
          session.RejectRun();
          rejection := Some(code);
        case Undecodable(code) =>
          session.RejectRun();
          rejection := Some(code);
        case Event(event) =>
          var kept, taken, committed;
          kept, taken, committed, rejection, recordsAccepted, cancelled :=
            TakeEvent(session, event, plan, p, recordsAccepted, cancelled);
          events, actions, cursors := events + kept, actions + taken, cursors + committed;
      }
    }
    assert frames[..|frames|] == frames;
    StoppedDrive(start, frames, next, plan);
    if rejection.Some? { actions := actions + [RejectedRun(rejection.value)]; }
    var state := session.CurrentState();
    var report := session.FinishRun(exit);
    actions := actions + [ReportedOutcome(report.outcome)];
    run := CollectRun(report, events, cursors, rejection, actions, state);
  }
}
