/**
 * The collect session itself: an object updated step by step, proved to be the state
 * machine of `Session` and to keep its invariant.
 */
module CollectSessions {
  import opened Wrappers
  import opened Codes
  import opened Counters
  import opened Manifests
  import opened Protocol
  import opened Utf8
  import opened Session
  import opened SessionRuns
  import Sorting

  /** A sorted set's elements in iteration order. */
  function Ascending(s: set<nat>): seq<nat> {
    if s == {} then [] else [Least(s)] + Ascending(s - {Least(s)})
  }

  lemma {:induction false} AscendingLists(s: set<nat>)
    ensures forall q :: q in Ascending(s) <==> q in s
    ensures forall i, j :: 0 <= i < j < |Ascending(s)| ==> Ascending(s)[i] < Ascending(s)[j]
  {
    if s != {} {
      var m := Least(s);
      AscendingLists(s - {m});
      var rest := Ascending(s - {m});
      forall j | 0 <= j < |rest| ensures m < rest[j] {
        assert rest[j] in rest;
      }
    }
  }

  class CollectSession {
    const manifest: Manifest
    const properties: Index
    const mode: CollectionMode
    const snapshotScope: Option<string>
    const windowed: bool
    const limits: Limits
    const runId: string
    var lastSeq: nat
    var recordCount: nat
    var diagnosticCount: nat
    var recordsBySeq: set<nat>
    var durableSeqs: set<nat>
    var committed: Option<CommittedCursor>
    var lastCommittedCoverage: nat
    var lastCheckpointCoverage: nat
    var pendingOffer: Option<CheckpointOffer>
    var seenKeys: map<SourceKey, Fingerprint>
    var errorDiagnostic: bool
    var rejected: bool
    var finalCheckpointSeq: Option<nat>
    var finalClaim: Option<SnapshotClaim>
    var finalClaimCommitted: bool
    var stagedBytes: nat

    ghost function View(): State
      reads this
    {
      State(manifest, properties, mode, snapshotScope, windowed, limits, runId, lastSeq, recordCount, diagnosticCount,
            recordsBySeq, durableSeqs, committed, lastCommittedCoverage, lastCheckpointCoverage, pendingOffer, seenKeys,
            errorDiagnostic, rejected, finalCheckpointSeq, finalClaim, finalClaimCommitted, stagedBytes)
    }

    ghost predicate Valid()
      reads this
    {
      Inv(View())
    }

    constructor (request: CollectRequest, manifest: Manifest, properties: Index, state: map<SourceKey, Fingerprint>)
      ensures View() == Initial(request, manifest, properties, state)
      ensures Valid()
    {
      this.manifest := manifest;
      this.properties := properties;
      this.mode := request.mode;
      this.snapshotScope := request.snapshotScope;
      this.windowed := request.windowed;
      this.limits := request.limits;
      this.runId := request.runId;
      lastSeq, recordCount, diagnosticCount := 0, 0, 0;
      recordsBySeq, durableSeqs := {}, {};
      committed, lastCommittedCoverage, lastCheckpointCoverage, pendingOffer := None, 0, 0, None;
      seenKeys := state;
      errorDiagnostic, rejected := false, false;
      finalCheckpointSeq, finalClaim, finalClaimCommitted, stagedBytes := None, None, false, 0;
      new;
      InitialInv(request, manifest, properties, state);
    }

    /** Starts a session, seeded with the current state core holds, or refuses a manifest that is not its own. */
    static method New(request: CollectRequest, manifest: Manifest, registry: Registry,
                      state: map<SourceKey, Fingerprint>)
      returns (r: Result<CollectSession, RejectionCode>)
      ensures r.Ok? <==> OwnsItsDeclarations(manifest)
      ensures r.Err? ==> FirstDefect(manifest, r.error)
      ensures r.Ok? ==> fresh(r.value) && r.value.Valid()
                        && r.value.View() == Initial(request, manifest, IndexOf(manifest, registry), state)
    {
      var index := NewIndex(manifest, registry);
      if index.Err? { return Err(index.error); }
      var session := new CollectSession(request, manifest, index.value, state);
      r := Ok(session);
    }

    // ---- Queries ----

    /** The highest durable record sequence number with no undurable record below it. */
    method DurableThrough() returns (highest: nat)
      requires Valid()
      ensures IsDurableThrough(View(), highest)
    {
      AscendingLists(recordsBySeq);
      var order := Ascending(recordsBySeq);
      highest := 0;
      var i := 0;
      while i < |order| && order[i] in durableSeqs
        invariant 0 <= i <= |order|
        invariant highest == if i == 0 then 0 else order[i - 1]
        invariant forall j :: 0 <= j < i ==> order[j] in durableSeqs
      {
        highest := order[i];
        i := i + 1;
      }
      DurablePrefix(View(), order, i, highest);
    }

    /** The first accepted record at or below a coverage whose durable write has not completed. */
    method FirstUndurableThrough(covers: nat) returns (first: Option<nat>)
      ensures first.None? <==> CoveredDurable(View(), covers)
      ensures first == if Undurable(View(), covers) == {} then None else Some(Least(Undurable(View(), covers)))
    {
      UndurableIsGap(View(), covers);
      AscendingLists(recordsBySeq);
      var order := Ascending(recordsBySeq);
      var i := 0;
      while i < |order| && order[i] <= covers
        invariant 0 <= i <= |order|
        invariant forall j :: 0 <= j < i ==> order[j] in durableSeqs
      {
        if order[i] !in durableSeqs {
          assert order[i] in Undurable(View(), covers);
          var m := Least(Undurable(View(), covers));
          assert m in order;
          return Some(order[i]);
        }
        i := i + 1;
      }
      assert forall q :: q in recordsBySeq && q <= covers ==> q in order;
      first := None;
    }

    /** The semantic fingerprint of every source key seen, to seed the next run with. */
    method CurrentState() returns (state: map<SourceKey, Fingerprint>)
      ensures state == View().seenKeys
    {
      state := seenKeys;
    }

    // ---- Accepting events ----

    method CheckRunId(id: string) returns (code: Option<RejectionCode>)
      modifies this`rejected
      ensures code == if id == runId then None else Some(ProtocolUnexpectedOrder)
      ensures rejected == (old(rejected) || code.Some?)
    {
      if id == runId { return None; }
      rejected := true;
      code := Some(ProtocolUnexpectedOrder);
    }

    method CheckNotAfterFinal() returns (code: Option<RejectionCode>)
      modifies this`rejected
      ensures code == if finalCheckpointSeq.Some? then Some(ProtocolUnexpectedOrder) else None
      ensures rejected == (old(rejected) || code.Some?)
    {
      if finalCheckpointSeq.None? { return None; }
      rejected := true;
      code := Some(ProtocolUnexpectedOrder);
    }

    method AdvanceSeq(seq_: nat) returns (code: Option<RejectionCode>)
      modifies this`rejected, this`lastSeq
      ensures code == if seq_ == old(lastSeq) then Some(ProtocolDuplicateSeq)
                      else if seq_ < old(lastSeq) then Some(ProtocolSeqRegression)
                      else if seq_ > old(lastSeq) + 1 then Some(ProtocolSeqGap) else None
      ensures rejected == (old(rejected) || code.Some?)
      ensures lastSeq == if code.None? then seq_ else old(lastSeq)
    {
      if seq_ == lastSeq { rejected := true; return Some(ProtocolDuplicateSeq); }
      if seq_ < lastSeq { rejected := true; return Some(ProtocolSeqRegression); }
      if seq_ != lastSeq + 1 { rejected := true; return Some(ProtocolSeqGap); }
      lastSeq := seq_;
      code := None;
    }

    /** The three checks every event passes before its own. */
    method AdmitEvent(id: string, seq_: nat) returns (code: Option<RejectionCode>)
      modifies this`rejected, this`lastSeq
      ensures (View(), code) == Admit(old(View()), id, seq_)
    {
      code := CheckRunId(id);
      if code.Some? { return; }
      code := CheckNotAfterFinal();
      if code.Some? { return; }
      code := AdvanceSeq(seq_);
    }

    /** The bounds of every candidate are checked before the declaration of any. */
    method CheckProperties(candidates: seq<(string, PropertyValue)>) returns (code: Option<RejectionCode>)
      ensures code == PropertyDefect(limits, properties, candidates)
    {
      if |candidates| > limits.maxPropertiesPerRecord { return Some(ProtocolLimitExceeded); }
      for i := 0 to |candidates|
        invariant forall j :: 0 <= j < i ==> MemberCount(candidates[j].1) <= limits.maxListMembers
                                             && MaxMemberBytes(candidates[j].1) <= limits.maxPropertyValueBytes
      {
        if MemberCount(candidates[i].1) > limits.maxListMembers { return Some(ProtocolLimitExceeded); }
        if MaxMemberBytes(candidates[i].1) > limits.maxPropertyValueBytes { return Some(ProtocolLimitExceeded); }
      }
      for i := 0 to |candidates|
        invariant FirstRefusal(properties, candidates) == FirstRefusal(properties, candidates[i..])
      {
        var refusal := Check(properties, candidates[i].0, candidates[i].1);
        if refusal.Some? { return refusal; }
      }
      code := None;
    }

    /** Everything the manifest and limits say about one record, in the order they are asked. */
    method CheckPayload(p: RecordPayload) returns (code: Option<RejectionCode>)
      ensures code == PayloadDefect(manifest, limits, properties, p)
    {
      hide PropertyDefect, ByteLen;
      if p.objectKind.Some? && !DeclaresObjectKind(manifest, p.objectKind.value) {
        return Some(ManifestUndeclaredCapability);
      }
      if p.noteType.Some? {
        if p.noteType.value !in NOTE_TYPES { return Some(RecordInvalidNoteType); }
        if p.objectKind.Some? {
          var declared := DeclaredNoteTypeFor(manifest.capabilities, p.objectKind.value);
          if declared.Some? && declared.value != p.noteType.value { return Some(RecordNoteTypeNotDeclared); }
        }
      }
      if p.body.Some? && ByteLen(p.body.value) > limits.maxBodyBytes { return Some(ProtocolLimitExceeded); }
      if p.properties.Some? {
        var defect := CheckProperties(p.properties.value);
        if defect.Some? { return defect; }
      }
      if p.artifacts.Some? && |p.artifacts.value| > limits.maxArtifactsPerRecord { return Some(ProtocolLimitExceeded); }
      if p.change == Delete && !manifest.tombstonesAuthoritative { return Some(DeletionUnauthorized); }
      code := None;
    }

    method AcceptRecordEvent(record: RecordEvent) returns (r: Result<AcceptedEvent, RejectionCode>)
      modifies this
      ensures (View(), r) == AcceptRecord(old(View()), record)
    {
      hide PayloadDefect, Disposition;
      var order := AdmitEvent(record.runId, record.seq_);
      if order.Some? { return Err(order.value); }
      if recordCount + 1 > limits.maxRunRecords { rejected := true; return Err(ProtocolLimitExceeded); }
      var defect := CheckPayload(record.payload);
      if defect.Some? { rejected := true; return Err(defect.value); }

      var disposition := Dispose(record);
      if disposition.None? { rejected := true; return Err(RecordDuplicateDivergentInRun); }
      seenKeys := seenKeys[KeyOf(record.payload) := SemanticFingerprint(record)];
      recordCount := recordCount + 1;
      recordsBySeq := recordsBySeq + {record.seq_};
      r := Ok(AcceptedRecord(record.seq_, disposition.value));
    }

    /** Compares a record with what the session last asserted under its source key. */
    method Dispose(record: RecordEvent) returns (disposition: Option<RecordDisposition>)
      ensures disposition == Disposition(View(), record.payload)
    {
      var fingerprint := SemanticFingerprint(record);
      var key := KeyOf(record.payload);
      if key in seenKeys {
        if seenKeys[key] == fingerprint { return Some(NoChange); }
        if !manifest.versionOrderingSupported { return None; }
      }
      disposition := Some(if record.payload.change == Upsert then WriteNote else RemoveNote);
    }

    /** Everything a checkpoint must satisfy, in the order it is asked. */
    method CheckCheckpoint(c: CheckpointEvent) returns (code: Option<RejectionCode>)
      ensures code == CheckpointDefect(View(), c)
    {
      hide ByteLen;
      if c.coversThrough >= c.seq_ { return Some(ProtocolSchemaInvalid); }
      if c.coversThrough < lastCheckpointCoverage { return Some(ProtocolUnexpectedOrder); }
      // The range is only built once the coverage has actually advanced.
      var actual := 0;
      ghost var newly := NewlyCovered(View(), c.coversThrough);
      if c.coversThrough > lastCheckpointCoverage {
        var range := set q | q in recordsBySeq && lastCheckpointCoverage + 1 <= q <= c.coversThrough;
        assert range == newly;
        actual := |range|;
      } else {
        assert newly == {};
      }
      if actual != c.recordsCovered { return Some(ProtocolCoverageMismatch); }
      if ByteLen(c.cursor) > limits.maxCursorBytes { return Some(ProtocolLimitExceeded); }
      if c.cursorFormatVersion != manifest.cursorFormatVersion { return Some(ManifestCursorFormatChanged); }
      if c.snapshot.Some? {
        if mode != Snapshot || snapshotScope.None? { return Some(SnapshotCompletenessContradicted); }
        if snapshotScope.value != c.snapshot.value.scope { return Some(SnapshotScopeWidened); }
      }
      code := None;
    }

    method AcceptCheckpointEvent(c: CheckpointEvent) returns (r: Result<AcceptedEvent, RejectionCode>)
      modifies this
      ensures (View(), r) == AcceptCheckpoint(old(View()), c)
    {
      hide CheckpointDefect;
      var order := AdmitEvent(c.runId, c.seq_);
      if order.Some? { return Err(order.value); }
      var defect := CheckCheckpoint(c);
      if defect.Some? { rejected := true; return Err(defect.value); }
      if c.snapshot.Some? { finalClaim := c.snapshot; }
      lastCheckpointCoverage := c.coversThrough;
      if c.isFinal { finalCheckpointSeq := Some(c.seq_); }
      pendingOffer := Some(OfferOf(c));
      r := Ok(AcceptedCheckpoint(OfferOf(c)));
    }

    method AcceptDiagnosticEvent(d: DiagnosticEvent) returns (r: Result<AcceptedEvent, RejectionCode>)
      modifies this
      ensures (View(), r) == AcceptDiagnostic(old(View()), d)
    {
      var order := AdmitEvent(d.runId, d.seq_);
      if order.Some? { return Err(order.value); }
      if diagnosticCount + 1 > limits.maxRunDiagnostics { rejected := true; return Err(ProtocolLimitExceeded); }
      diagnosticCount := diagnosticCount + 1;
      if d.severity == Error { errorDiagnostic := true; }
      r := Ok(AcceptedDiagnostic(d.seq_, d.severity));
    }

    /** Accepts one Field event; an unresolved offer or an earlier rejection refuses it outright. */
    method AcceptEvent(event: FieldEvent) returns (r: Result<AcceptedEvent, RejectionCode>)
      requires Valid()
      modifies this
      ensures (View(), r) == Accept(old(View()), event)
      ensures Valid()
    {
      hide AcceptRecord, AcceptCheckpoint, AcceptDiagnostic, Inv;
      AcceptInv(View(), event);
      if rejected { return Err(ProtocolUnexpectedOrder); }
      if pendingOffer.Some? { rejected := true; return Err(ProtocolUnexpectedOrder); }
      match event
      case ManifestFrame(_) =>
        rejected := true;
        r := Err(ProtocolUnexpectedOrder);
      case RecordFrame(record) => r := AcceptRecordEvent(record);
      case CheckpointFrame(c) => r := AcceptCheckpointEvent(c);
      case DiagnosticFrame(d) => r := AcceptDiagnosticEvent(d);
    }

    // ---- Durability, artifacts, commitment ----

    /** Resolves references one by one, charging only bytes the notebook did not already hold. */
    method ResolveReferences(results: seq<ArtifactResult>) returns (r: Result<seq<ArtifactOutcome>, RejectionCode>)
      requires Valid()
      modifies this`stagedBytes, this`rejected
      ensures (View(), r) == ResolveArtifacts(old(View()), results)
      ensures Valid()
    {
      hide Inv, Charge, ResolvedSoFar;
      ghost var whole := Charge(stagedBytes, limits.maxRunArtifactBytes, results);
      ResolveInv(View(), results);
      var resolved: seq<ArtifactOutcome> := [];
      assert results[0..] == results;
      AppendNothing(whole);
      for i := 0 to |results|
        invariant rejected == old(rejected)
        invariant whole == ResolvedSoFar(resolved, Charge(stagedBytes, limits.maxRunArtifactBytes, results[i..]))
      {
        ChargeUnfolds(stagedBytes, limits.maxRunArtifactBytes, resolved, results, i);
        if results[i].Err? {
          rejected := true;
          return Err(results[i].error);
        }
        var outcome := results[i].value;
        if outcome.Resolved? && !outcome.reused {
          stagedBytes := SaturatingAdd(stagedBytes, outcome.byteLength);
          if stagedBytes > limits.maxRunArtifactBytes {
            rejected := true;
            return Err(ProtocolLimitExceeded);
          }
        }
        resolved := resolved + [outcome];
      }
      assert results[|results|..] == [];
      ChargeEnds(stagedBytes, limits.maxRunArtifactBytes, resolved);
      r := Ok(resolved);
    }

    method MarkDurable(seq_: nat)
      requires Valid()
      modifies this`durableSeqs
      ensures View() == RecordDurable(old(View()), seq_)
      ensures Valid()
    {
      durableSeqs := durableSeqs + {seq_};
    }

    /** Turns the pending offer into the committed cursor, unless a record it covers still awaits its write. */
    method CommitOffer(offer: CheckpointOffer) returns (r: Result<CommittedCursor, CommitRefusal>)
      requires Valid()
      modifies this
      ensures (View(), r) == Commit(old(View()), offer)
      ensures Valid()
      ensures r.Ok? ==> old(pendingOffer) == Some(offer) && CoveredDurable(View(), offer.coversThrough)
      ensures r.Ok? ==> old(lastCommittedCoverage) <= lastCommittedCoverage == offer.coversThrough
    {
      CommitInv(View(), offer);
      UndurableIsGap(View(), offer.coversThrough);
      if pendingOffer != Some(offer) { return Err(UnknownOffer); }
      if rejected {
        pendingOffer := None;
        return Err(RunHasRejectedRecord);
      }
      var undurable := FirstUndurableThrough(offer.coversThrough);
      if undurable.Some? {
        var u := undurable.value;
        return Err(RecordsNotDurable(offer.coversThrough, if u > 0 then u - 1 else 0));
      }
      if offer.coversThrough < lastCommittedCoverage {
        return Err(NotMonotonic(lastCommittedCoverage, offer.coversThrough));
      }
      var cursor := CommittedCursor(offer.cursor, offer.cursorFormatVersion, offer.coversThrough);
      lastCommittedCoverage := offer.coversThrough;
      committed := Some(cursor);
      if finalCheckpointSeq == Some(offer.seq_) { finalClaimCommitted := true; }
      pendingOffer := None;
      r := Ok(cursor);
    }

    method WithholdOffer(offer: CheckpointOffer) returns (refusal: Option<CommitRefusal>)
      requires Valid()
      modifies this`pendingOffer
      ensures (View(), refusal) == Withhold(old(View()), offer)
      ensures Valid()
    {
      if pendingOffer != Some(offer) { return Some(UnknownOffer); }
      pendingOffer := None;
      refusal := None;
    }

    method RejectRun()
      requires Valid()
      modifies this`rejected
      ensures View() == NoteRejection(old(View()))
      ensures Valid()
    {
      rejected := true;
    }

    // ---- Finishing ----

    /** Classifies the run: every standing reason against deletion is collected, then sorted. */
    method FinishRun(exit: ExitObservation) returns (report: RunReport)
      ensures report == Finish(View(), exit)
    {
      var normalExit := exit == Exited(0);
      var snapshotOk := mode == Incremental
                        || (finalClaim.Some? && finalClaim.value.state == Complete && snapshotScope.Some?
                            && finalClaim.value.scope == snapshotScope.value);
      var outcome :=
        if rejected || !exit.Exited? then RunFailed
        else if normalExit && !errorDiagnostic && snapshotOk then RunComplete
        else if committed.Some? || recordCount > 0 then RunPartial
        else RunFailed;
      var reasons := CollectReasons(exit);
      var deletion := match snapshotScope
        case Some(scope) => if reasons == [] then Authorized(scope) else Refused(reasons)
        case None => if reasons == [] then Refused([NotSnapshotMode]) else Refused(reasons);
      report := RunReport(outcome, committed, deletion, recordCount, diagnosticCount);
    }

    method CollectReasons(exit: ExitObservation) returns (sorted: seq<DeletionRefusal>)
      ensures sorted == Standing(View(), exit, ALL_REFUSALS)
    {
      hide Standing, Stands, Earlier, Has, AddIf, Sorting.Sort, Sorting.Dedup;
      var reasons := [];
      NoneYet();
      reasons := AddIf(reasons, manifest.snapshotAuthority != SnapshotAuthoritative, AuthorityNotDeclared);
      reasons := AddIf(reasons, mode != Snapshot || snapshotScope.None?, NotSnapshotMode);
      reasons := AddClaimReasons(reasons, exit);
      reasons := AddRunReasons(reasons, exit);
      AllKindsCovered(View(), exit, reasons);
      SortedIsStanding(View(), exit, reasons);
      sorted := Sorting.Dedup(Sorting.Sort(reasons, Earlier));
    }

    method AddClaimReasons(reasons: seq<DeletionRefusal>, ghost exit: ExitObservation) returns (r: seq<DeletionRefusal>)
      ensures forall q :: Has(r, q) <==> Has(reasons, q) || (IsClaimReason(q) && Stands(View(), exit, q))
    {
      hide Has, AddIf;
      match finalClaim {
        case None => r := AddIf(reasons, true, NoCompletenessClaim);
        case Some(claim) =>
          r := AddIf(reasons, claim.state != Complete, ClaimIsPartial);
          r := AddIf(r, snapshotScope != Some(claim.scope), ClaimScopeMismatch);
          r := AddIf(r, finalCheckpointSeq.None?, ClaimNotFinal);
          r := AddIf(r, !finalClaimCommitted, ClaimNotCommitted);
      }
    }

    method AddRunReasons(reasons: seq<DeletionRefusal>, exit: ExitObservation) returns (r: seq<DeletionRefusal>)
      ensures forall q :: Has(r, q) <==> Has(reasons, q) || (IsRunReason(q) && Stands(View(), exit, q))
    {
      hide Has, AddIf;
      r := AddIf(reasons, errorDiagnostic, ErrorDiagnostic);
      r := AddIf(r, exit != Exited(0), NonZeroExit);
      r := AddIf(r, rejected, ProtocolViolation);
      r := AddIf(r, windowed, WindowedRun);
    }
  }

  type Charged = (nat, Result<seq<ArtifactOutcome>, RejectionCode>)

  /** Prepends what is already resolved to what the remaining references yield. */
  function ResolvedSoFar(resolved: seq<ArtifactOutcome>, rest: Charged): Charged {
    (rest.0, if rest.1.Ok? then Ok(resolved + rest.1.value) else rest.1)
  }

  lemma AppendNothing(rest: Charged)
    ensures ResolvedSoFar([], rest) == rest
  {
    if rest.1.Ok? { assert [] + rest.1.value == rest.1.value; }
  }

  /** One reference: refused, over budget, or moved from the rest to the resolved. */
  lemma ChargeUnfolds(staged: nat, budget: nat, resolved: seq<ArtifactOutcome>, results: seq<ArtifactResult>, i: nat)
    requires i < |results|
    ensures var whole := ResolvedSoFar(resolved, Charge(staged, budget, results[i..]));
            if results[i].Err? then whole == (staged, Err(results[i].error))
            else
              var outcome := results[i].value;
              if !outcome.Resolved? || outcome.reused then
                whole == ResolvedSoFar(resolved + [outcome], Charge(staged, budget, results[i + 1..]))
              else
                var total := SaturatingAdd(staged, outcome.byteLength);
                if total > budget then whole == (total, Err(ProtocolLimitExceeded))
                else whole == ResolvedSoFar(resolved + [outcome], Charge(total, budget, results[i + 1..]))
  {
    assert results[i..][1..] == results[i + 1..];
    if results[i].Ok? {
      var outcome := results[i].value;
      var total := if outcome.Resolved? && !outcome.reused then SaturatingAdd(staged, outcome.byteLength) else staged;
      var later := Charge(total, budget, results[i + 1..]).1;
      if later.Ok? { assert resolved + ([outcome] + later.value) == resolved + [outcome] + later.value; }
    }
  }

  lemma ChargeEnds(staged: nat, budget: nat, resolved: seq<ArtifactOutcome>)
    ensures ResolvedSoFar(resolved, Charge(staged, budget, [])) == (staged, Ok(resolved))
  {
    assert resolved + [] == resolved;
  }

  lemma DurablePrefix(s: State, order: seq<nat>, i: nat, highest: nat)
    requires order == Ascending(s.recordsBySeq) && i <= |order|
    requires highest == if i == 0 then 0 else order[i - 1]
    requires forall j :: 0 <= j < i ==> order[j] in s.durableSeqs
    requires i < |order| ==> order[i] !in s.durableSeqs
    requires forall q :: q in s.recordsBySeq ==> q > 0
    ensures IsDurableThrough(s, highest)
  {
    AscendingLists(s.recordsBySeq);
  }

  // ---- Sorting the reasons by declaration order ----

  predicate Has(reasons: seq<DeletionRefusal>, reason: DeletionRefusal) { reason in reasons }

  function AddIf(reasons: seq<DeletionRefusal>, stands: bool, reason: DeletionRefusal): (r: seq<DeletionRefusal>)
    ensures forall q :: Has(r, q) <==> Has(reasons, q) || (stands && q == reason)
  {
    if stands then reasons + [reason] else reasons
  }

  function Rank(r: DeletionRefusal): nat {
    match r
    case AuthorityNotDeclared => 0
    case NotSnapshotMode => 1
    case NoCompletenessClaim => 2
    case ClaimIsPartial => 3
    case ClaimScopeMismatch => 4
    case ErrorDiagnostic => 5
    case NonZeroExit => 6
    case ProtocolViolation => 7
    case WindowedRun => 8
    case ClaimNotFinal => 9
    case ClaimNotCommitted => 10
  }

  predicate Earlier(a: DeletionRefusal, b: DeletionRefusal) { Rank(a) < Rank(b) }

  lemma {:induction false} StandingAscends(s: State, exit: ExitObservation, candidates: seq<DeletionRefusal>)
    requires forall i, j :: 0 <= i < j < |candidates| ==> Earlier(candidates[i], candidates[j])
    ensures Sorting.StrictlyAscending(Standing(s, exit, candidates), Earlier)
  {
    hide Stands;
    if candidates != [] {
      StandingAscends(s, exit, candidates[1..]);
      StandingExactly(s, exit, candidates[1..]);
      var rest := Standing(s, exit, candidates[1..]);
      forall j | 0 <= j < |rest| ensures Earlier(candidates[0], rest[j]) {
        assert rest[j] in candidates[1..];
      }
    }
  }

  predicate IsClaimReason(r: DeletionRefusal) {
    r.NoCompletenessClaim? || r.ClaimIsPartial? || r.ClaimScopeMismatch? || r.ClaimNotFinal? || r.ClaimNotCommitted?
  }

  predicate IsRunReason(r: DeletionRefusal) {
    r.ErrorDiagnostic? || r.NonZeroExit? || r.ProtocolViolation? || r.WindowedRun?
  }

  lemma NoneYet()
    ensures forall q :: !Has([], q)
  {
  }

  lemma AllKindsCovered(s: State, exit: ExitObservation, reasons: seq<DeletionRefusal>)
    requires forall q :: Has(reasons, q) <==>
               (s.manifest.snapshotAuthority != SnapshotAuthoritative && q == AuthorityNotDeclared)
               || ((s.mode != Snapshot || s.snapshotScope.None?) && q == NotSnapshotMode)
               || (IsClaimReason(q) && Stands(s, exit, q)) || (IsRunReason(q) && Stands(s, exit, q))
    ensures forall r :: r in reasons <==> Stands(s, exit, r)
  {
    forall r ensures r in reasons <==> Stands(s, exit, r) {
      assert Has(reasons, r) <==> r in reasons;
    }
  }

  lemma EveryReasonRanked()
    ensures forall i :: 0 <= i < |ALL_REFUSALS| ==> Rank(ALL_REFUSALS[i]) == i
    ensures forall r: DeletionRefusal :: r in ALL_REFUSALS
  {
    forall r: DeletionRefusal ensures r in ALL_REFUSALS {
      assert ALL_REFUSALS[Rank(r)] == r;
    }
  }

  /** Whatever order the reasons were pushed in, sorting lists exactly the standing ones in order. */
  lemma SortedIsStanding(s: State, exit: ExitObservation, reasons: seq<DeletionRefusal>)
    requires forall r :: r in reasons <==> Stands(s, exit, r)
    ensures Sorting.Dedup(Sorting.Sort(reasons, Earlier)) == Standing(s, exit, ALL_REFUSALS)
  {
    var all := ALL_REFUSALS;
    EveryReasonRanked();
    hide Stands;
    StandingAscends(s, exit, all);
    StandingExactly(s, exit, all);
    hide Standing;
    Sorting.SortOfDistinct(reasons, Standing(s, exit, ALL_REFUSALS), Earlier);
  }
}
