/**
 * What a collect run does, told from its accepted events alone: the actions of every run are the
 * story of its events, and each frame it does not follow has the refusal that stopped it.
 */
module Narratives {
  import opened Wrappers
  import opened Codes
  import opened Counters
  import opened Manifests
  import opened Protocol
  import S = Session
  import opened SessionRuns
  import opened Driver

  // ---- Artifact references ----

  /** Bytes the notebook did not hold before. */
  predicate Fresh(r: S.ArtifactResult) { r.Ok? && r.value.Resolved? && !r.value.reused }

  function FreshBytes(r: S.ArtifactResult): nat { if Fresh(r) then r.value.byteLength else 0 }

  function References(p: RecordPayload): nat {
    match p.artifacts
    case None => 0
    case Some(refs) => |refs|
  }

  /** The fresh bytes of a record's first references. */
  function BytesThrough(plan: Plan, seq_: nat, count: nat): nat {
    if count == 0 then 0 else BytesThrough(plan, seq_, count - 1) + FreshBytes(plan.resolve(seq_, count - 1))
  }

  /** The fresh bytes of all accepted records so far. */
  function BytesOf(plan: Plan, events: seq<FieldEvent>): nat {
    if events == [] then 0
    else
      var e := events[|events| - 1];
      BytesOf(plan, events[..|events| - 1])
      + if e.RecordFrame? then BytesThrough(plan, e.record.seq_, References(e.record.payload)) else 0
  }

  /** A sum as a saturating sixty-four-bit counter shows it. */
  function Capped(n: nat): nat { if n > 0xffff_ffff_ffff_ffff then 0xffff_ffff_ffff_ffff else n }

  /** The reference resolves, and if its bytes are fresh the run's bytes through it are within the budget. */
  predicate Staged(plan: Plan, before: nat, seq_: nat, k: nat) {
    var r := plan.resolve(seq_, k);
    r.Ok? && (Fresh(r) ==> Capped(before + BytesThrough(plan, seq_, k + 1)) <= plan.request.limits.maxRunArtifactBytes)
  }

  predicate AllStaged(plan: Plan, before: nat, record: RecordEvent) {
    forall k :: 0 <= k < References(record.payload) ==> Staged(plan, before, record.seq_, k)
  }

  /** The first reference that is refused or passes the budget, and the code it fails the run with. */
  predicate FaultAt(plan: Plan, before: nat, record: RecordEvent, k: nat, code: RejectionCode) {
    && k < References(record.payload) && !Staged(plan, before, record.seq_, k)
    && (forall j :: 0 <= j < k ==> Staged(plan, before, record.seq_, j))
    && match plan.resolve(record.seq_, k)
       case Err(refusal) => code == refusal
       case Ok(_) => code == ProtocolLimitExceeded
  }

  ghost predicate Faulty(plan: Plan, before: nat, record: RecordEvent, code: RejectionCode) {
    exists k: nat :: FaultAt(plan, before, record, k, code)
  }

  lemma CappedSum(a: nat, b: nat)
    ensures SaturatingAdd(Capped(a), b) == Capped(a + b)
  {
  }

  lemma BytesNext(plan: Plan, before: nat, seq_: nat, j: nat)
    ensures var fresh_ := FreshBytes(plan.resolve(seq_, j));
            BytesThrough(plan, seq_, j + 1) == BytesThrough(plan, seq_, j) + fresh_
            && SaturatingAdd(Capped(before + BytesThrough(plan, seq_, j)), fresh_)
               == Capped(before + BytesThrough(plan, seq_, j + 1))
  {
    CappedSum(before + BytesThrough(plan, seq_, j), FreshBytes(plan.resolve(seq_, j)));
    hide Capped, FreshBytes;
  }

  lemma FaultHere(plan: Plan, before: nat, record: RecordEvent, j: nat)
    requires j < References(record.payload) && !Staged(plan, before, record.seq_, j)
    requires forall i :: 0 <= i < j ==> Staged(plan, before, record.seq_, i)
    ensures var r := plan.resolve(record.seq_, j);
            Faulty(plan, before, record, if r.Err? then r.error else ProtocolLimitExceeded)
  {
    hide Staged;
    var r := plan.resolve(record.seq_, j);
    assert FaultAt(plan, before, record, j, if r.Err? then r.error else ProtocolLimitExceeded);
  }

  /** Charging a record's references from the `j`th on, whatever was charged before. */
  lemma {:induction false} ChargeExactly(plan: Plan, before: nat, record: RecordEvent, j: nat,
                                         results: seq<S.ArtifactResult>)
    requires j + |results| == References(record.payload)
    requires forall i :: 0 <= i < |results| ==> results[i] == plan.resolve(record.seq_, j + i)
    requires forall i :: 0 <= i < j ==> Staged(plan, before, record.seq_, i)
    ensures var q, n := record.seq_, References(record.payload);
            var (end, r) := S.Charge(Capped(before + BytesThrough(plan, q, j)),
                                     plan.request.limits.maxRunArtifactBytes, results);
            (r.Ok? <==> AllStaged(plan, before, record))
            && (r.Ok? ==> |r.value| == n - j && end == Capped(before + BytesThrough(plan, q, n))
                          && forall i :: 0 <= i < n - j ==> plan.resolve(q, j + i) == Ok(r.value[i]))
            && (r.Err? ==> Faulty(plan, before, record, r.error))
    decreases |results|
  {
    hide BytesThrough, Capped, Faulty;
    if results != [] {
      var q := record.seq_;
      BytesNext(plan, before, q, j);
      assert results[0] == plan.resolve(q, j);
      if Staged(plan, before, q, j) {
        ChargeExactly(plan, before, record, j + 1, results[1..]);
      } else {
        FaultHere(plan, before, record, j);
      }
    }
  }

  // ---- The story of a run's events ----

  /** What core shows of a resolved reference. */
  function Shown(r: S.ArtifactResult): Observation {
    match r
    case Ok(Resolved(digest, _, reused)) => if reused then ReusedArtifact(digest) else InstalledArtifact(digest)
    case Ok(Declined(handle)) => DeclinedArtifact(handle)
    case Err(code) => RejectedRun(code)
  }

  /** All of a record's references, in their order. */
  function ShownAll(plan: Plan, record: RecordEvent): seq<Observation> {
    seq(References(record.payload), k requires 0 <= k => Shown(plan.resolve(record.seq_, k)))
  }

  /** What becomes of an installed record's Note. */
  function NoteOf(plan: Plan, before: seq<FieldEvent>, record: RecordEvent): Observation {
    var q := record.seq_;
    if plan.durability == FailAt(q) then DurableWriteFailed(q)
    else if Holds(Asserted(plan.currentState, before), record.payload) then KeptNote(q)
    else if record.payload.change.Upsert? then WroteNote(q)
    else RemovedNote(q)
  }

  function RecordCount(events: seq<FieldEvent>): nat {
    if events == [] then 0
    else RecordCount(events[..|events| - 1]) + if events[|events| - 1].RecordFrame? then 1 else 0
  }

  /** A record's references, one by one, then its Note, then the cancellation if it is due. */
  function RecordStory(plan: Plan, before: seq<FieldEvent>, record: RecordEvent): seq<Observation> {
    ShownAll(plan, record) + [NoteOf(plan, before, record)]
    + if plan.cancelWrites && plan.cancelAfterRecords == Some(RecordCount(before) + 1) then [Cancelled] else []
  }

  /** A checkpoint is committed unless the record whose write fails was accepted and lies at or below it. */
  function CheckpointStory(plan: Plan, before: seq<FieldEvent>, c: CheckpointEvent): Observation {
    if Blocked(before, plan.durability, c.coversThrough)
    then WithheldCheckpoint(S.RecordsNotDurable(c.coversThrough,
                                                if plan.durability.failing > 0 then plan.durability.failing - 1 else 0))
    else CommittedCheckpoint(c.coversThrough)
  }

  /** The actions one accepted event leads to; a record with a faulty reference leads to none. */
  function EventStory(plan: Plan, before: seq<FieldEvent>, event: FieldEvent): seq<Observation> {
    match event
    case ManifestFrame(_) => []
    case RecordFrame(r) => if AllStaged(plan, BytesOf(plan, before), r) then RecordStory(plan, before, r) else []
    case CheckpointFrame(c) => [CheckpointStory(plan, before, c)]
    case DiagnosticFrame(d) => [DiagnosticSeen(d.severity)]
  }

  function Story(plan: Plan, events: seq<FieldEvent>): seq<Observation> {
    if events == [] then []
    else
      var n := |events| - 1;
      Story(plan, events[..n]) + EventStory(plan, events[..n], events[n])
  }

  /** The `i`th event is no record with a faulty reference. */
  predicate Sound(plan: Plan, events: seq<FieldEvent>, i: nat)
    requires i < |events|
  {
    events[i].RecordFrame? ==> AllStaged(plan, BytesOf(plan, events[..i]), events[i].record)
  }

  /** The last event is a record that a faulty reference fails with this code. */
  ghost predicate Faulted(plan: Plan, events: seq<FieldEvent>, code: RejectionCode) {
    && events != [] && events[|events| - 1].RecordFrame?
    && Faulty(plan, BytesOf(plan, events[..|events| - 1]), events[|events| - 1].record, code)
  }

  // ---- Every run tells it ----

  predicate AboutRecord(a: Observation, q: nat) { NoteAction(a, q) || a == DurableWriteFailed(q) }

  predicate NothingAbout(actions: seq<Observation>, q: nat) {
    forall j :: 0 <= j < |actions| ==> !AboutRecord(actions[j], q)
  }

  ghost predicate Narrated(p: Progress, plan: Plan) {
    && p.actions == Story(plan, p.events)
    && p.session.limits == plan.request.limits
    && (forall i :: 0 <= i < |p.events| - 1 ==> Sound(plan, p.events, i))
    && (if p.rejection.None? then
          && (p.events != [] ==> Sound(plan, p.events, |p.events| - 1))
          && p.session.stagedBytes == Capped(BytesOf(plan, p.events))
          && p.recordsAccepted == RecordCount(p.events)
          && (p.cancelled ==> plan.cancelAfterRecords.Some? && plan.cancelAfterRecords.value <= p.recordsAccepted)
        else
          p.events != [] && !Sound(plan, p.events, |p.events| - 1) ==>
            Faulted(plan, p.events, p.rejection.value)
            && NothingAbout(p.actions, p.events[|p.events| - 1].record.seq_))
  }

  lemma StorySnoc(plan: Plan, events: seq<FieldEvent>, e: FieldEvent)
    ensures Story(plan, events + [e]) == Story(plan, events) + EventStory(plan, events, e)
    ensures BytesOf(plan, events + [e])
         == BytesOf(plan, events)
            + if e.RecordFrame? then BytesThrough(plan, e.record.seq_, References(e.record.payload)) else 0
    ensures RecordCount(events + [e]) == RecordCount(events) + if e.RecordFrame? then 1 else 0
    ensures forall i :: 0 <= i < |events| ==> (Sound(plan, events + [e], i) <==> Sound(plan, events, i))
    ensures Sound(plan, events + [e], |events|)
            <==> (e.RecordFrame? ==> AllStaged(plan, BytesOf(plan, events), e.record))
  {
    hide EventStory, AllStaged;
    var all := events + [e];
    assert all[..|events|] == events;
    forall i | 0 <= i < |events| ensures Sound(plan, all, i) <==> Sound(plan, events, i) {
      assert all[..i] == events[..i];
    }
  }

  /** Every note in a story is about one of its records. */
  lemma {:induction false} StoryNotes(plan: Plan, events: seq<FieldEvent>, q: nat)
    requires q !in RecordsIn(events)
    ensures NothingAbout(Story(plan, events), q)
    decreases |events|
  {
    if events != [] {
      var n := |events| - 1;
      var e := events[n];
      assert events == events[..n] + [e];
      RecordsSnoc(events[..n], e);
      StoryNotes(plan, events[..n], q);
      EventNotes(plan, events[..n], e, q);
      hide EventStory, RecordsIn;
    }
  }

  lemma EventNotes(plan: Plan, before: seq<FieldEvent>, e: FieldEvent, q: nat)
    requires e.RecordFrame? ==> e.record.seq_ != q
    ensures NothingAbout(EventStory(plan, before, e), q)
  {
    hide AllStaged, Blocked, Holds, Asserted;
    if e.RecordFrame? {
      var n, story := References(e.record.payload), RecordStory(plan, before, e.record);
      forall j | 0 <= j < |story| ensures !AboutRecord(story[j], q) {
        if j < n { assert story[j] == Shown(plan.resolve(e.record.seq_, j)); }
      }
    }
  }

  lemma ResultsExactly(plan: Plan, record: RecordEvent)
    ensures var results := ResultsFor(plan, record);
            |results| == References(record.payload)
            && forall i :: 0 <= i < |results| ==> results[i] == plan.resolve(record.seq_, i)
    ensures BytesThrough(plan, record.seq_, 0) == 0
  {
  }

  lemma ChargeTells(plan: Plan, before: nat, record: RecordEvent, staged: nat)
    requires AllStaged(plan, before, record) && staged == Capped(before)
    ensures var (end, r) := S.Charge(staged, plan.request.limits.maxRunArtifactBytes, ResultsFor(plan, record));
            r.Ok? && end == Capped(before + BytesThrough(plan, record.seq_, References(record.payload)))
            && ArtifactActions(r.value) == ShownAll(plan, record)
  {
    hide *;
    ResultsExactly(plan, record);
    ChargeExactly(plan, before, record, 0, ResultsFor(plan, record));
    ActionsShown(plan, record,
                 S.Charge(staged, plan.request.limits.maxRunArtifactBytes, ResultsFor(plan, record)).1.value);
  }

  lemma ResolutionTells(s: S.State, before: seq<FieldEvent>, record: RecordEvent, plan: Plan)
    requires s.limits == plan.request.limits && s.stagedBytes == Capped(BytesOf(plan, before))
    requires AllStaged(plan, BytesOf(plan, before), record)
    ensures var (t, r) := S.ResolveArtifacts(s, ResultsFor(plan, record));
            r.Ok? && ArtifactActions(r.value) == ShownAll(plan, record)
            && t == s.(stagedBytes := Capped(BytesOf(plan, before)
                                             + BytesThrough(plan, record.seq_, References(record.payload))))
  {
    hide S.Charge, BytesOf, BytesThrough, AllStaged, Capped, ResultsFor, ArtifactActions, ShownAll, References;
    ChargeTells(plan, BytesOf(plan, before), record, s.stagedBytes);
  }

  /** An install whose references all stage shows each of them and then the record's Note. */
  lemma InstallTells(p: Progress, before: seq<FieldEvent>, record: RecordEvent, disposition: S.RecordDisposition,
                     plan: Plan)
    requires p.session.limits == plan.request.limits && p.session.stagedBytes == Capped(BytesOf(plan, before))
    requires plan.durability.Succeeds(record.seq_) ==> NoteFor(disposition, record.seq_) == NoteOf(plan, before, record)
    requires AllStaged(plan, BytesOf(plan, before), record)
    ensures var after := AfterInstall(p, record, disposition, plan);
            after == p.(session := after.session, recordsAccepted := p.recordsAccepted + 1,
                        actions := p.actions + (ShownAll(plan, record) + [NoteOf(plan, before, record)]))
            && after.session.limits == p.session.limits
            && after.session.stagedBytes
               == Capped(BytesOf(plan, before) + BytesThrough(plan, record.seq_, References(record.payload)))
  {
    ResolutionTells(p.session, before, record, plan);
    hide S.ResolveArtifacts, BytesOf, BytesThrough, AllStaged, Capped, Holds, Asserted, ResultsFor, ArtifactActions;
    hide ShownAll;
  }

  lemma CancellationTells(p: Progress, before: seq<FieldEvent>, record: RecordEvent, front: seq<Observation>,
                          plan: Plan)
    requires p.recordsAccepted == RecordCount(before) + 1 && p.rejection.None?
    requires p.cancelled ==> plan.cancelAfterRecords.Some? && plan.cancelAfterRecords.value < p.recordsAccepted
    requires p.actions == front + (ShownAll(plan, record) + [NoteOf(plan, before, record)])
    ensures var after := AfterCancellation(p, plan);
            after == p.(actions := front + RecordStory(plan, before, record), cancelled := after.cancelled)
            && (after.cancelled ==>
                  plan.cancelAfterRecords.Some? && plan.cancelAfterRecords.value <= p.recordsAccepted)
  {
    hide RecordCount, NoteOf;
    var told := ShownAll(plan, record) + [NoteOf(plan, before, record)];
    assert RecordStory(plan, before, record)
        == told + if plan.cancelWrites && plan.cancelAfterRecords == Some(p.recordsAccepted) then [Cancelled] else [];
    hide RecordStory, ShownAll;
    assert front + told + [Cancelled] == front + (told + [Cancelled]);
    assert front + told == front + (told + []);
  }

  /** An install with a faulty reference fails the run with its code and does nothing else. */
  lemma InstallFails(p: Progress, before: seq<FieldEvent>, record: RecordEvent, disposition: S.RecordDisposition,
                     plan: Plan)
    requires p.session.limits == plan.request.limits && p.session.stagedBytes == Capped(BytesOf(plan, before))
    requires p.rejection.None? && !AllStaged(plan, BytesOf(plan, before), record)
    ensures var after := AfterCancellation(AfterInstall(p, record, disposition, plan), plan);
            after.actions == p.actions && after.events == p.events && after.session.limits == p.session.limits
            && after.rejection.Some? && Faulty(plan, BytesOf(plan, before), record, after.rejection.value)
  {
    var results := ResultsFor(plan, record);
    assert BytesThrough(plan, record.seq_, 0) == 0;
    ChargeExactly(plan, BytesOf(plan, before), record, 0, results);
    hide S.Charge, BytesOf, BytesThrough, AllStaged, Faulty, Capped, ResultsFor;
  }

  lemma InstallNarrated(p: Progress, before: seq<FieldEvent>, record: RecordEvent, disposition: S.RecordDisposition,
                        plan: Plan)
    requires p.events == before + [RecordFrame(record)] && p.actions == Story(plan, before) && p.rejection.None?
    requires p.session.limits == plan.request.limits && p.session.stagedBytes == Capped(BytesOf(plan, before))
    requires p.recordsAccepted == RecordCount(before)
    requires forall i :: 0 <= i < |before| ==> Sound(plan, before, i)
    requires p.cancelled ==> plan.cancelAfterRecords.Some? && plan.cancelAfterRecords.value <= p.recordsAccepted
    requires plan.durability.Succeeds(record.seq_) ==> NoteFor(disposition, record.seq_) == NoteOf(plan, before, record)
    requires NothingAbout(p.actions, record.seq_)
    ensures Narrated(AfterCancellation(AfterInstall(p, record, disposition, plan), plan), plan)
  {
    StorySnoc(plan, before, RecordFrame(record));
    hide Story, BytesOf, BytesThrough, RecordCount, Sound, AllStaged, Faulty, Capped, RecordStory, NothingAbout;
    hide AfterInstall, AfterCancellation, NoteOf, NoteFor;
    assert p.events[..|before|] == before;
    if AllStaged(plan, BytesOf(plan, before), record) {
      InstallTells(p, before, record, disposition, plan);
      hide ShownAll;
      CancellationTells(AfterInstall(p, record, disposition, plan), before, record, p.actions, plan);
    } else {
      InstallFails(p, before, record, disposition, plan);
      assert p.actions + [] == p.actions;
    }
  }

  lemma ActionsShown(plan: Plan, record: RecordEvent, outcomes: seq<S.ArtifactOutcome>)
    requires |outcomes| == References(record.payload)
    requires forall i :: 0 <= i < |outcomes| ==> plan.resolve(record.seq_, i) == S.ArtifactResult.Ok(outcomes[i])
    ensures ArtifactActions(outcomes) == ShownAll(plan, record)
  {
  }

  /** Of everything an offer covers only the record whose write failed can be undurable, and the refusal says so. */
  lemma CommitTells(s: S.State, c: CheckpointEvent, before: seq<FieldEvent>, plan: Plan)
    requires Inv(s) && s.pendingOffer == Some(S.OfferOf(c)) && !s.rejected && s.recordsBySeq == RecordsIn(before)
    requires forall q :: q in s.durableSeqs ==> plan.durability.Succeeds(q)
    requires forall q :: q in s.recordsBySeq && plan.durability.Succeeds(q) ==> q in s.durableSeqs
    ensures match S.Commit(s, S.OfferOf(c)).1
            case Ok(cursor) => CheckpointStory(plan, before, c) == CommittedCheckpoint(cursor.coversThrough)
            case Err(refusal) => CheckpointStory(plan, before, c) == WithheldCheckpoint(refusal)
  {
    OfferGrantedExactly(s, S.OfferOf(c), plan.durability);
    NotMonotonicNow(s, S.OfferOf(c));
    hide RecordsIn, Inv;
    var undurable := S.Undurable(s, c.coversThrough);
    if undurable != {} {
      var q := S.Least(undurable);
      assert q in undurable;
      assert q == plan.durability.failing;
    }
  }

  lemma NotMonotonicNow(s: S.State, offer: S.CheckpointOffer)
    requires Inv(s)
    ensures S.Commit(s, offer).1.Err? ==> !S.Commit(s, offer).1.error.NotMonotonic?
  {
    assert Run(s, []) == s;
    NotMonotonicIsUnreachable(s, [], offer);
  }

  lemma OfferTells(p: Progress, before: seq<FieldEvent>, c: CheckpointEvent, plan: Plan)
    requires Inv(p.session) && p.session.pendingOffer == Some(S.OfferOf(c)) && !p.session.rejected
    requires p.session.recordsBySeq == RecordsIn(before)
    requires forall q :: q in p.session.durableSeqs ==> plan.durability.Succeeds(q)
    requires forall q :: q in p.session.recordsBySeq && plan.durability.Succeeds(q) ==> q in p.session.durableSeqs
    ensures var after := AfterOffer(p, S.OfferOf(c));
            after == p.(session := after.session, cursors := after.cursors,
                        actions := p.actions + [CheckpointStory(plan, before, c)])
            && after.session.limits == p.session.limits && after.session.stagedBytes == p.session.stagedBytes
  {
    CommitTells(p.session, c, before, plan);
    hide CheckpointStory, Inv, S.OfferOf, S.Undurable, RecordsIn;
  }

  lemma OfferNarrated(p: Progress, before: seq<FieldEvent>, c: CheckpointEvent, plan: Plan)
    requires Inv(p.session) && p.session.pendingOffer == Some(S.OfferOf(c)) && !p.session.rejected
    requires p.session.recordsBySeq == RecordsIn(before)
    requires forall q :: q in p.session.durableSeqs ==> plan.durability.Succeeds(q)
    requires forall q :: q in p.session.recordsBySeq && plan.durability.Succeeds(q) ==> q in p.session.durableSeqs
    requires p.events == before + [CheckpointFrame(c)] && p.actions == Story(plan, before) && p.rejection.None?
    requires p.session.limits == plan.request.limits && p.session.stagedBytes == Capped(BytesOf(plan, before))
    requires p.recordsAccepted == RecordCount(before)
    requires forall i :: 0 <= i < |before| ==> Sound(plan, before, i)
    requires p.cancelled ==> plan.cancelAfterRecords.Some? && plan.cancelAfterRecords.value <= p.recordsAccepted
    ensures Narrated(AfterOffer(p, S.OfferOf(c)), plan)
  {
    hide Story, BytesOf, RecordCount, Sound, Capped, CheckpointStory, Inv, S.OfferOf, RecordsIn, AfterOffer;
    StorySnoc(plan, before, CheckpointFrame(c));
    OfferTells(p, before, c, plan);
  }

  lemma ConsistentMeans(p: Progress, plan: Plan)
    requires Consistent(p.session, p.events, p.actions, p.cursors, plan.durability)
    ensures Inv(p.session) && p.session.recordsBySeq == RecordsIn(p.events)
    ensures forall q :: q in p.session.durableSeqs ==> plan.durability.Succeeds(q)
  {
  }

  lemma EventNarrated(p: Progress, event: FieldEvent, plan: Plan)
    requires Consistent(p.session, p.events, p.actions, p.cursors, plan.durability)
    requires Prompt(p, plan.durability) && Explained(p, plan.currentState) && Narrated(p, plan) && p.rejection.None?
    ensures Narrated(AfterEvent(p, event, plan), plan)
  {
    var (t, r) := S.Accept(p.session, event);
    hide S.Accept, S.PayloadDefect, S.CheckpointDefect, S.Disposition, S.Commit, EarnedCommits, AllCaused;
    hide Consistent, AfterInstall, AfterOffer, AfterCancellation, Story, BytesOf, RecordCount, Sound, Capped, Inv;
    if r.Err? {
      AcceptRefused(p.session, event);
    } else {
      AcceptGranted(p.session, event);
      StorySnoc(plan, p.events, event);
      var q := p.(session := t, events := p.events + [event]);
      match event
      case RecordFrame(record) =>
        NewRecord(p, record, plan);
        hide Asserted, Holds, NoteOf;
        InstallNarrated(q, p.events, record, r.value.disposition, plan);
      case CheckpointFrame(c) =>
        ConsistentMeans(p, plan);
        AcceptInv(p.session, event);
        OfferNarrated(q, p.events, c, plan);
      case DiagnosticFrame(_) =>
    }
  }

  /** A record just accepted is new to the story, and its disposition is the Note it gets there. */
  lemma NewRecord(p: Progress, record: RecordEvent, plan: Plan)
    requires Consistent(p.session, p.events, p.actions, p.cursors, plan.durability)
    requires p.session.seenKeys == Asserted(plan.currentState, p.events) && p.actions == Story(plan, p.events)
    requires S.Accept(p.session, RecordFrame(record)).1.Ok?
    ensures NothingAbout(p.actions, record.seq_)
    ensures S.Disposition(p.session, record.payload).Some?
    ensures plan.durability.Succeeds(record.seq_) ==>
              NoteFor(S.Disposition(p.session, record.payload).value, record.seq_) == NoteOf(plan, p.events, record)
  {
    AcceptGranted(p.session, RecordFrame(record));
    hide S.Accept, Asserted, CommitsFollowNotes, NotedBefore, Commits, Coverages, NonDecreasing;
    assert record.seq_ !in RecordsIn(p.events);
    StoryNotes(plan, p.events, record.seq_);
  }

  lemma {:induction false} DriveNarrated(init: S.State, p: Progress, frames: seq<Frame>, plan: Plan)
    requires Safe(init, p, plan.durability) && Prompt(p, plan.durability)
    requires Explained(p, plan.currentState) && Narrated(p, plan)
    ensures Narrated(Drive(p, frames, plan), plan)
    decreases |frames|
  {
    hide AfterEvent, Consistent, IsSessionRun, EarnedCommits, Narrated, Explained;
    if frames != [] {
      var n := |frames| - 1;
      DriveNarrated(init, p, frames[..n], plan);
      DriveSafe(init, p, frames[..n], plan);
      DrivePrompt(init, p, frames[..n], plan);
      DriveExplained(p, frames[..n], plan, plan.currentState);
      var q := Drive(p, frames[..n], plan);
      if q.rejection.None? {
        match frames[n]
        case Event(event) => EventNarrated(q, event, plan);
        case Broken(code) => FailNarrated(q, code, plan);
        case Undecodable(code) => FailNarrated(q, code, plan);
      }
    }
  }

  lemma FailNarrated(p: Progress, code: RejectionCode, plan: Plan)
    requires Narrated(p, plan) && p.rejection.None?
    ensures Narrated(Fail(p, code), plan)
  {
    hide Story, Sound, Faulted, BytesOf;
  }

  // ---- Which frames a run follows ----

  /** Why a frame is not followed, given the events accepted before it. */
  ghost predicate Refuses(init: S.State, events: seq<FieldEvent>, frame: Frame, code: RejectionCode) {
    match frame
    case Broken(broken) => code == broken
    case Undecodable(undecodable) => code == undecodable
    case Event(event) => exists s :: IsSessionRun(init, s, events) && S.Accept(s, event).1 == Err(code)
  }

  /**
   * The accepted events are the first frames. An unrejected run follows them all; a rejected one
   * stops at the first frame that is refused, or at a record it accepted whose references are faulty.
   */
  ghost predicate Follows(init: S.State, plan: Plan, events: seq<FieldEvent>, frames: seq<Frame>,
                          rejection: Option<RejectionCode>)
  {
    && |events| <= |frames| && (forall i :: 0 <= i < |events| ==> frames[i] == Event(events[i]))
    && match rejection
       case None => |events| == |frames|
       case Some(code) =>
         Faulted(plan, events, code) || (|events| < |frames| && Refuses(init, events, frames[|events|], code))
  }

  lemma InstallStops(p: Progress, before: seq<FieldEvent>, record: RecordEvent, disposition: S.RecordDisposition,
                     plan: Plan)
    requires p.session.limits == plan.request.limits && p.session.stagedBytes == Capped(BytesOf(plan, before))
    requires p.rejection.None?
    ensures var after := AfterCancellation(AfterInstall(p, record, disposition, plan), plan);
            after.events == p.events
            && (after.rejection.Some? ==> Faulty(plan, BytesOf(plan, before), record, after.rejection.value))
  {
    var results := ResultsFor(plan, record);
    assert BytesThrough(plan, record.seq_, 0) == 0;
    ChargeExactly(plan, BytesOf(plan, before), record, 0, results);
    hide S.Charge, BytesOf, BytesThrough, AllStaged, Faulty, Capped, ResultsFor;
  }

  /** One event: refused and nothing kept, or kept, and then only a faulty reference stops the run. */
  lemma EventStops(p: Progress, event: FieldEvent, plan: Plan)
    requires p.session.limits == plan.request.limits && p.session.stagedBytes == Capped(BytesOf(plan, p.events))
    requires p.rejection.None?
    ensures var r, q := S.Accept(p.session, event).1, AfterEvent(p, event, plan);
            if r.Err? then q.events == p.events && q.rejection == Some(r.error)
            else q.events == p.events + [event]
                 && (q.rejection.Some? ==>
                       event.RecordFrame? && Faulty(plan, BytesOf(plan, p.events), event.record, q.rejection.value))
  {
    var (t, r) := S.Accept(p.session, event);
    AcceptOutcome(p.session, event);
    if r.Ok? { AcceptGranted(p.session, event); }
    hide S.Accept, S.Commit, S.PayloadDefect, S.CheckpointDefect, S.Disposition, AfterInstall, AfterCancellation;
    hide BytesOf, Faulty, Capped;
    if r.Ok? && event.RecordFrame? {
      InstallStops(p.(session := t, events := p.events + [event]), p.events, event.record, r.value.disposition, plan);
    }
  }

  lemma FollowsRefusal(init: S.State, plan: Plan, events: seq<FieldEvent>, frames: seq<Frame>, frame: Frame,
                       code: RejectionCode)
    requires Follows(init, plan, events, frames, None) && Refuses(init, events, frame, code)
    ensures Follows(init, plan, events, frames + [frame], Some(code))
  {
    hide Faulted, Refuses;
  }

  lemma FollowsAccepted(init: S.State, plan: Plan, events: seq<FieldEvent>, frames: seq<Frame>, event: FieldEvent,
                        rejection: Option<RejectionCode>)
    requires Follows(init, plan, events, frames, None)
    requires rejection.Some? ==>
               event.RecordFrame? && Faulty(plan, BytesOf(plan, events), event.record, rejection.value)
    ensures Follows(init, plan, events + [event], frames + [Event(event)], rejection)
  {
    hide Faulty, Refuses, BytesOf;
    assert (events + [event])[..|events|] == events;
  }

  lemma FollowsEvent(init: S.State, p: Progress, event: FieldEvent, frames: seq<Frame>, plan: Plan)
    requires IsSessionRun(init, p.session, p.events) && p.rejection.None?
    requires p.session.limits == plan.request.limits && p.session.stagedBytes == Capped(BytesOf(plan, p.events))
    requires Follows(init, plan, p.events, frames, None)
    ensures var q := AfterEvent(p, event, plan); Follows(init, plan, q.events, frames + [Event(event)], q.rejection)
  {
    hide *;
    EventStops(p, event, plan);
    var r, q := S.Accept(p.session, event).1, AfterEvent(p, event, plan);
    if r.Err? {
      EventRefused(init, p.session, p.events, event, r.error);
      FollowsRefusal(init, plan, p.events, frames, Event(event), r.error);
    } else {
      FollowsAccepted(init, plan, p.events, frames, event, q.rejection);
    }
  }

  lemma EventRefused(init: S.State, s: S.State, events: seq<FieldEvent>, event: FieldEvent, code: RejectionCode)
    requires IsSessionRun(init, s, events) && S.Accept(s, event).1 == Err(code)
    ensures Refuses(init, events, Event(event), code)
  {
    hide S.Accept, IsSessionRun;
  }

  lemma NarratedMeans(p: Progress, plan: Plan)
    requires Narrated(p, plan) && p.rejection.None?
    ensures p.session.limits == plan.request.limits && p.session.stagedBytes == Capped(BytesOf(plan, p.events))
  {
  }

  lemma FollowsOn(init: S.State, plan: Plan, events: seq<FieldEvent>, frames: seq<Frame>, more: Frame,
                  rejection: Option<RejectionCode>)
    requires Follows(init, plan, events, frames, rejection) && rejection.Some?
    ensures Follows(init, plan, events, frames + [more], rejection)
  {
    hide Faulted, Refuses;
  }

  lemma {:induction false} DriveFollows(init: S.State, p: Progress, frames: seq<Frame>, plan: Plan)
    requires Safe(init, p, plan.durability) && Prompt(p, plan.durability)
    requires Explained(p, plan.currentState) && Narrated(p, plan) && p.events == [] && p.rejection.None?
    ensures var q := Drive(p, frames, plan); Follows(init, plan, q.events, frames, q.rejection)
    decreases |frames|
  {
    hide AfterEvent, Consistent, IsSessionRun, EarnedCommits, Narrated, Explained, Prompt, Faulted;
    if frames != [] {
      var n := |frames| - 1;
      DriveFollows(init, p, frames[..n], plan);
      DriveSafe(init, p, frames[..n], plan);
      DriveNarrated(init, p, frames[..n], plan);
      var q := Drive(p, frames[..n], plan);
      assert frames == frames[..n] + [frames[n]];
      if q.rejection.Some? {
        FollowsOn(init, plan, q.events, frames[..n], frames[n], q.rejection);
      } else if frames[n].Event? {
        NarratedMeans(q, plan);
        FollowsEvent(init, q, frames[n].event, frames[..n], plan);
      } else {
        FollowsRefusal(init, plan, q.events, frames[..n], frames[n], frames[n].code);
      }
    }
  }

  lemma BeginNarrated(s: S.State, plan: Plan, sendFailure: Option<RejectionCode>)
    requires s.limits == plan.request.limits && s.stagedBytes == 0
    ensures Narrated(Begin(s, sendFailure), plan)
  {
  }

  lemma StartIsSafe(init: S.State, policy: DurabilityPolicy, sendFailure: Option<RejectionCode>)
    requires Consistent(init, [], [], [], policy)
    ensures Safe(init, Begin(init, sendFailure), policy)
  {
    hide Consistent, IsSessionRun;
    StartIsRun(init);
    if sendFailure.Some? { FailSafe(init, Begin(init, None), sendFailure.value, policy); }
  }

  lemma StartIsReady(plan: Plan, manifest: Manifest, registry: Registry, sendFailure: Option<RejectionCode>)
    ensures var init := S.Initial(plan.request, manifest, IndexOf(manifest, registry), plan.currentState);
            var p := Begin(init, sendFailure);
            Safe(init, p, plan.durability) && Prompt(p, plan.durability)
            && Explained(p, plan.currentState) && Narrated(p, plan)
  {
    hide Consistent, IsSessionRun, IndexOf, Narrated, Safe;
    var init := S.Initial(plan.request, manifest, IndexOf(manifest, registry), plan.currentState);
    StartConsistent(plan.request, manifest, IndexOf(manifest, registry), plan.currentState, plan.durability);
    StartIsSafe(init, plan.durability, sendFailure);
    BeginNarrated(init, plan, sendFailure);
  }

  /**
   * Every run is the story of its events. Its actions are what each accepted event leads to, in
   * order, then the rejection if there is one, then the outcome. Every accepted record but the last
   * has only references that resolve within the budget; the last one's faulty reference, if it has
   * one, is why the run failed, and nothing is ever noted about that record.
   */
  lemma RunIsTold(plan: Plan, manifest: Manifest, registry: Registry, sendFailure: Option<RejectionCode>,
                  frames: seq<Frame>, exit: S.ExitObservation)
    ensures var run := RunOf(plan, manifest, registry, sendFailure, frames, exit);
            var init := S.Initial(plan.request, manifest, IndexOf(manifest, registry), plan.currentState);
            var last := |run.events| - 1;
            run.actions == Story(plan, run.events)
                           + (if run.rejection.Some? then [RejectedRun(run.rejection.value)] else [])
                           + [ReportedOutcome(run.report.outcome)]
            && (forall i :: 0 <= i < last ==> Sound(plan, run.events, i))
            && (last >= 0 && !Sound(plan, run.events, last) ==>
                  run.rejection.Some? && Faulted(plan, run.events, run.rejection.value)
                  && NothingAbout(run.actions, run.events[last].record.seq_))
            && (if sendFailure.Some? then run.events == [] && run.rejection == sendFailure
                else Follows(init, plan, run.events, frames, run.rejection))
  {
    hide Consistent, IsSessionRun, IndexOf, Narrated, Explained, Prompt, Advance, S.Finish, S.Initial, Safe, Follows;
    var init := S.Initial(plan.request, manifest, IndexOf(manifest, registry), plan.currentState);
    StartIsReady(plan, manifest, registry, sendFailure);
    DriveNarrated(init, Begin(init, sendFailure), frames, plan);
    if sendFailure.Some? {
      SentNothing(Begin(init, sendFailure), frames, plan);
    } else {
      DriveFollows(init, Begin(init, sendFailure), frames, plan);
    }
    var p := Drive(Begin(init, sendFailure), frames, plan);
    var run := Conclude(p, exit);
    hide Drive, Begin;
    ConcludeNarrated(p, exit, plan);
  }

  lemma SentNothing(p: Progress, frames: seq<Frame>, plan: Plan)
    requires p.rejection.Some?
    ensures Drive(p, frames, plan) == p
  {
    assert frames[..0] == [];
    StoppedDrive(p, frames, 0, plan);
  }

  lemma ConcludeNarrated(p: Progress, exit: S.ExitObservation, plan: Plan)
    requires Narrated(p, plan)
    ensures var run := Conclude(p, exit);
            var last := |run.events| - 1;
            run.actions == Story(plan, run.events)
                           + (if run.rejection.Some? then [RejectedRun(run.rejection.value)] else [])
                           + [ReportedOutcome(run.report.outcome)]
            && (forall i :: 0 <= i < last ==> Sound(plan, run.events, i))
            && (last >= 0 && !Sound(plan, run.events, last) ==>
                  run.rejection.Some? && Faulted(plan, run.events, run.rejection.value)
                  && NothingAbout(run.actions, run.events[last].record.seq_))
  {
    hide Story, Sound, Faulted, S.Finish;
    var run := Conclude(p, exit);
    var told, end := Story(plan, p.events), [ReportedOutcome(run.report.outcome)];
    if p.rejection.Some? {
      assert told + ([RejectedRun(p.rejection.value)] + end) == told + [RejectedRun(p.rejection.value)] + end;
    } else {
      assert told + ([] + end) == told + [] + end;
    }
  }

  /** A run that a manifest never started reports failure and does nothing but reject. */
  lemma UnstartedIsTold(code: RejectionCode, seen: map<SourceKey, Fingerprint>)
    ensures var run := Unstarted(code, seen);
            run.actions == [RejectedRun(code)] && run.rejection == Some(code) && run.currentState == seen
            && run.events == [] && run.committedCursors == []
            && run.report.outcome == S.RunFailed && run.report.committedCursor.None?
            && run.report.deletion == S.Refused([])
            && run.report.recordsAccepted == 0 && run.report.diagnosticsAccepted == 0
  {
  }

  // ---- What stands right before a note ----

  /** Before a record's note or write failure stand its references, one by one, as they resolved. */
  predicate ReferencesBefore(plan: Plan, actions: seq<Observation>, record: RecordEvent, j: nat) {
    var n := References(record.payload);
    n <= j <= |actions|
    && forall k :: 0 <= k < n ==>
         plan.resolve(record.seq_, k).Ok? && actions[j - n + k] == Shown(plan.resolve(record.seq_, k))
  }

  /** Some accepted record of that sequence number has its references right before. */
  predicate Preceded(plan: Plan, events: seq<FieldEvent>, actions: seq<Observation>, q: nat, j: nat) {
    exists i :: 0 <= i < |events| && events[i].RecordFrame? && events[i].record.seq_ == q
                && ReferencesBefore(plan, actions, events[i].record, j)
  }

  lemma ReferencesMove(plan: Plan, front: seq<Observation>, actions: seq<Observation>, back: seq<Observation>,
                       record: RecordEvent, j: nat)
    requires ReferencesBefore(plan, actions, record, j)
    ensures ReferencesBefore(plan, front + actions + back, record, |front| + j)
  {
    hide Shown;
  }

  lemma PrecededStays(plan: Plan, events: seq<FieldEvent>, e: FieldEvent, early: seq<Observation>,
                      told: seq<Observation>, q: nat, j: nat)
    requires Preceded(plan, events, early, q, j)
    ensures Preceded(plan, events + [e], early + told, q, j)
  {
    hide ReferencesBefore;
    var i :| 0 <= i < |events| && events[i].RecordFrame? && events[i].record.seq_ == q
             && ReferencesBefore(plan, early, events[i].record, j);
    ReferencesMove(plan, [], early, told, events[i].record, j);
    assert [] + early + told == early + told;
    assert (events + [e])[i] == events[i];
  }

  lemma PrecededNow(plan: Plan, events: seq<FieldEvent>, e: FieldEvent, early: seq<Observation>, q: nat, j: nat)
    requires j < |EventStory(plan, events, e)| && AboutRecord(EventStory(plan, events, e)[j], q)
    ensures Preceded(plan, events + [e], early + EventStory(plan, events, e), q, |early| + j)
  {
    EventReferences(plan, events, e, q, j);
    hide ReferencesBefore, EventStory, AboutRecord;
    var told := EventStory(plan, events, e);
    ReferencesMove(plan, early, told, [], e.record, j);
    assert early + told + [] == early + told;
    assert (events + [e])[|events|] == e;
  }

  /** Every note and write failure of a story comes right after the references of its own record. */
  lemma {:induction false} NotesFollowReferences(plan: Plan, events: seq<FieldEvent>, q: nat, j: nat)
    requires j < |Story(plan, events)| && AboutRecord(Story(plan, events)[j], q)
    ensures Preceded(plan, events, Story(plan, events), q, j)
    decreases |events|
  {
    if events == [] { assert false; }
    var n := |events| - 1;
    var early := Story(plan, events[..n]);
    assert Story(plan, events) == early + EventStory(plan, events[..n], events[n]) by {
      hide EventStory, Preceded, AboutRecord;
    }
    hide *;
    assert events == events[..n] + [events[n]];
    if j < |early| {
      NotesFollowReferences(plan, events[..n], q, j);
      PrecededStays(plan, events[..n], events[n], early, EventStory(plan, events[..n], events[n]), q, j);
    } else {
      PrecededNow(plan, events[..n], events[n], early, q, j - |early|);
    }
  }

  lemma EventReferences(plan: Plan, before: seq<FieldEvent>, e: FieldEvent, q: nat, j: nat)
    requires j < |EventStory(plan, before, e)| && AboutRecord(EventStory(plan, before, e)[j], q)
    ensures e.RecordFrame? && e.record.seq_ == q && ReferencesBefore(plan, EventStory(plan, before, e), e.record, j)
  {
    hide Blocked, Holds, Asserted, Fresh;
    var record := e.record;
    var n, story := References(record.payload), EventStory(plan, before, e);
    assert story == RecordStory(plan, before, record);
    forall k | 0 <= k < n
      ensures plan.resolve(record.seq_, k).Ok? && story[k] == Shown(plan.resolve(record.seq_, k))
    {
      assert Staged(plan, BytesOf(plan, before), record.seq_, k);
    }
    assert j >= n;
    assert story[n] == NoteOf(plan, before, record);
    assert j == n;
  }
}
