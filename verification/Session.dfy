/**
 * A collect run from core's side, as a state machine on values: what each operation
 * does to the session and what it answers.
 */
module Session {
  import opened Wrappers
  import opened Codes
  import opened Counters
  import opened Manifests
  import opened Protocol
  import opened Utf8

  datatype RecordDisposition = WriteNote | NoChange | RemoveNote

  datatype CheckpointOffer = CheckpointOffer(
    seq_: nat, cursor: string, cursorFormatVersion: nat, coversThrough: nat, isFinal: bool)

  datatype CommittedCursor = CommittedCursor(cursor: string, cursorFormatVersion: nat, coversThrough: nat)

  datatype CommitRefusal =
    | RecordsNotDurable(coversThrough: nat, durableThrough: nat)
    | RunHasRejectedRecord
    | UnknownOffer
    | NotMonotonic(committedThrough: nat, offeredThrough: nat)

  datatype AcceptedEvent =
    | AcceptedRecord(seq_: nat, disposition: RecordDisposition)
    | AcceptedCheckpoint(offer: CheckpointOffer)
    | AcceptedDiagnostic(seq_: nat, severity: Severity)

  /** What resolving one artifact reference produced. */
  datatype ArtifactOutcome = Resolved(digest: string, byteLength: nat, reused: bool) | Declined(handle: string)

  type ArtifactResult = Result<ArtifactOutcome, RejectionCode>

  datatype ExitObservation =
    | Exited(code: nat) | Signalled(signal: nat) | WindowsAbnormalTermination(status: nat)
    | TerminatedByCore | Timeout | IdleTimeout

  datatype State = State(
    manifest: Manifest,
    properties: Index,
    mode: CollectionMode,
    snapshotScope: Option<string>,
    windowed: bool,
    limits: Limits,
    runId: string,
    lastSeq: nat,
    recordCount: nat,
    diagnosticCount: nat,
    recordsBySeq: set<nat>,
    durableSeqs: set<nat>,
    committed: Option<CommittedCursor>,
    lastCommittedCoverage: nat,
    lastCheckpointCoverage: nat,
    pendingOffer: Option<CheckpointOffer>,
    seenKeys: map<SourceKey, Fingerprint>,
    errorDiagnostic: bool,
    rejected: bool,
    finalCheckpointSeq: Option<nat>,
    finalClaim: Option<SnapshotClaim>,
    finalClaimCommitted: bool,
    stagedBytes: nat)

  function Initial(request: CollectRequest, manifest: Manifest, properties: Index,
                   seen: map<SourceKey, Fingerprint>): State
  {
    State(manifest, properties, request.mode, request.snapshotScope, request.windowed, request.limits, request.runId,
          0, 0, 0, {}, {}, None, 0, 0, None, seen, false, false, None, None, false, 0)
  }

  // ---- Accepting events ----

  /** The run, order and sequence checks every event passes first, and the state they leave. */
  function Admit(s: State, runId: string, seq_: nat): (State, Option<RejectionCode>) {
    if runId != s.runId || s.finalCheckpointSeq.Some? then (s.(rejected := true), Some(ProtocolUnexpectedOrder))
    else if seq_ == s.lastSeq then (s.(rejected := true), Some(ProtocolDuplicateSeq))
    else if seq_ < s.lastSeq then (s.(rejected := true), Some(ProtocolSeqRegression))
    else if seq_ != s.lastSeq + 1 then (s.(rejected := true), Some(ProtocolSeqGap))
    else (s.(lastSeq := seq_), None)
  }

  predicate WithinBounds(limits: Limits, properties: seq<(string, PropertyValue)>) {
    forall i :: 0 <= i < |properties| ==>
      MemberCount(properties[i].1) <= limits.maxListMembers
      && MaxMemberBytes(properties[i].1) <= limits.maxPropertyValueBytes
  }

  function FirstRefusal(index: Index, properties: seq<(string, PropertyValue)>): Option<RejectionCode> {
    if properties == [] then None
    else
      var refusal := Check(index, properties[0].0, properties[0].1);
      if refusal.Some? then refusal else FirstRefusal(index, properties[1..])
  }

  function PropertyDefect(limits: Limits, index: Index, properties: seq<(string, PropertyValue)>): Option<RejectionCode>
  {
    if |properties| > limits.maxPropertiesPerRecord || !WithinBounds(limits, properties)
    then Some(ProtocolLimitExceeded)
    else FirstRefusal(index, properties)
  }

  function KindDefect(manifest: Manifest, p: RecordPayload): Option<RejectionCode> {
    if p.objectKind.Some? && !DeclaresObjectKind(manifest, p.objectKind.value) then Some(ManifestUndeclaredCapability)
    else if p.noteType.Some? && p.noteType.value !in NOTE_TYPES then Some(RecordInvalidNoteType)
    else if p.noteType.Some? && p.objectKind.Some?
            && DeclaredNoteTypeFor(manifest.capabilities, p.objectKind.value) !in {None, p.noteType}
    then Some(RecordNoteTypeNotDeclared)
    else None
  }

  /** What the manifest and the run's limits have against a record, whatever came before it. */
  function PayloadDefect(manifest: Manifest, limits: Limits, index: Index, p: RecordPayload): Option<RejectionCode> {
    var kind := KindDefect(manifest, p);
    if kind.Some? then kind
    else if p.body.Some? && ByteLen(p.body.value) > limits.maxBodyBytes then Some(ProtocolLimitExceeded)
    else
      var property := if p.properties.Some? then PropertyDefect(limits, index, p.properties.value) else None;
      if property.Some? then property
      else if p.artifacts.Some? && |p.artifacts.value| > limits.maxArtifactsPerRecord then Some(ProtocolLimitExceeded)
      else if p.change == Delete && !manifest.tombstonesAuthoritative then Some(DeletionUnauthorized)
      else None
  }

  /** What to do with a record's object, or nothing when it diverges from what was already asserted. */
  function Disposition(s: State, p: RecordPayload): Option<RecordDisposition> {
    var key := KeyOf(p);
    if key in s.seenKeys && s.seenKeys[key] == p then Some(NoChange)
    else if key in s.seenKeys && !s.manifest.versionOrderingSupported then None
    else Some(if p.change == Upsert then WriteNote else RemoveNote)
  }

  function AcceptRecord(s: State, record: RecordEvent): (State, Result<AcceptedEvent, RejectionCode>) {
    var (t, order) := Admit(s, record.runId, record.seq_);
    if order.Some? then (t, Err(order.value))
    else if t.recordCount + 1 > t.limits.maxRunRecords then (t.(rejected := true), Err(ProtocolLimitExceeded))
    else
      var p := record.payload;
      var defect := PayloadDefect(t.manifest, t.limits, t.properties, p);
      if defect.Some? then (t.(rejected := true), Err(defect.value))
      else
        match Disposition(t, p)
        case None => (t.(rejected := true), Err(RecordDuplicateDivergentInRun))
        case Some(disposition) =>
          (t.(seenKeys := t.seenKeys[KeyOf(p) := p],
              recordCount := t.recordCount + 1,
              recordsBySeq := t.recordsBySeq + {record.seq_}),
           Ok(AcceptedRecord(record.seq_, disposition)))
  }

  /** The accepted records a new coverage adds to the previous one. */
  function NewlyCovered(s: State, coversThrough: nat): set<nat> {
    set q | q in s.recordsBySeq && s.lastCheckpointCoverage < q <= coversThrough
  }

  function CheckpointDefect(s: State, c: CheckpointEvent): Option<RejectionCode> {
    if c.coversThrough >= c.seq_ then Some(ProtocolSchemaInvalid)
    else if c.coversThrough < s.lastCheckpointCoverage then Some(ProtocolUnexpectedOrder)
    else if c.recordsCovered != |NewlyCovered(s, c.coversThrough)| then Some(ProtocolCoverageMismatch)
    else if ByteLen(c.cursor) > s.limits.maxCursorBytes then Some(ProtocolLimitExceeded)
    else if c.cursorFormatVersion != s.manifest.cursorFormatVersion then Some(ManifestCursorFormatChanged)
    else if c.snapshot.None? then None
    else if s.mode != Snapshot || s.snapshotScope.None? then Some(SnapshotCompletenessContradicted)
    else if s.snapshotScope.value != c.snapshot.value.scope then Some(SnapshotScopeWidened)
    else None
  }

  function OfferOf(c: CheckpointEvent): CheckpointOffer {
    CheckpointOffer(c.seq_, c.cursor, c.cursorFormatVersion, c.coversThrough, c.isFinal)
  }

  function AcceptCheckpoint(s: State, c: CheckpointEvent): (State, Result<AcceptedEvent, RejectionCode>) {
    var (t, order) := Admit(s, c.runId, c.seq_);
    if order.Some? then (t, Err(order.value))
    else
      var defect := CheckpointDefect(t, c);
      if defect.Some? then (t.(rejected := true), Err(defect.value))
      else
        (t.(finalClaim := if c.snapshot.Some? then c.snapshot else t.finalClaim,
            lastCheckpointCoverage := c.coversThrough,
            finalCheckpointSeq := if c.isFinal then Some(c.seq_) else t.finalCheckpointSeq,
            pendingOffer := Some(OfferOf(c))),
         Ok(AcceptedCheckpoint(OfferOf(c))))
  }

  function AcceptDiagnostic(s: State, d: DiagnosticEvent): (State, Result<AcceptedEvent, RejectionCode>) {
    var (t, order) := Admit(s, d.runId, d.seq_);
    if order.Some? then (t, Err(order.value))
    else if t.diagnosticCount + 1 > t.limits.maxRunDiagnostics then (t.(rejected := true), Err(ProtocolLimitExceeded))
    else
      (t.(diagnosticCount := t.diagnosticCount + 1, errorDiagnostic := t.errorDiagnostic || d.severity == Error),
       Ok(AcceptedDiagnostic(d.seq_, d.severity)))
  }

  function Accept(s: State, event: FieldEvent): (State, Result<AcceptedEvent, RejectionCode>) {
    if s.rejected then (s, Err(ProtocolUnexpectedOrder))
    else if s.pendingOffer.Some? then (s.(rejected := true), Err(ProtocolUnexpectedOrder))
    else match event
      case ManifestFrame(_) => (s.(rejected := true), Err(ProtocolUnexpectedOrder))
      case RecordFrame(record) => AcceptRecord(s, record)
      case CheckpointFrame(c) => AcceptCheckpoint(s, c)
      case DiagnosticFrame(d) => AcceptDiagnostic(s, d)
  }

  // ---- Durability and commitment ----

  /** The accepted records at or below a coverage whose durable write has not completed. */
  function Undurable(s: State, covers: nat): set<nat> {
    set q | q in s.recordsBySeq && q <= covers && q !in s.durableSeqs
  }

  function Least(s: set<nat>): (m: nat)
    requires s != {}
    ensures m in s && forall x :: x in s ==> m <= x
  {
    LeastExists(s);
    var m :| m in s && forall x :: x in s ==> m <= x;
    m
  }

  lemma LeastExists(s: set<nat>)
    requires s != {}
    ensures exists m :: m in s && forall x :: x in s ==> m <= x
  {
    var m := LeastOf(s);
  }

  lemma LeastOf(s: set<nat>) returns (m: nat)
    requires s != {}
    ensures m in s && forall x :: x in s ==> m <= x
  {
    var y :| y in s;
    m := y;
    if s != {y} {
      var rest := s - {y};
      var n := LeastOf(rest);
      m := if y < n then y else n;
      assert forall x :: x in s ==> x == y || x in rest;
    }
  }

  function RecordDurable(s: State, seq_: nat): State {
    s.(durableSeqs := s.durableSeqs + {seq_})
  }

  function Commit(s: State, offer: CheckpointOffer): (State, Result<CommittedCursor, CommitRefusal>) {
    if s.pendingOffer != Some(offer) then (s, Err(UnknownOffer))
    else if s.rejected then (s.(pendingOffer := None), Err(RunHasRejectedRecord))
    else if Undurable(s, offer.coversThrough) != {} then
      var first := Least(Undurable(s, offer.coversThrough));
      (s, Err(RecordsNotDurable(offer.coversThrough, if first > 0 then first - 1 else 0)))
    else if offer.coversThrough < s.lastCommittedCoverage then
      (s, Err(NotMonotonic(s.lastCommittedCoverage, offer.coversThrough)))
    else
      var committed := CommittedCursor(offer.cursor, offer.cursorFormatVersion, offer.coversThrough);
      (s.(lastCommittedCoverage := offer.coversThrough,
          committed := Some(committed),
          finalClaimCommitted := s.finalClaimCommitted || s.finalCheckpointSeq == Some(offer.seq_),
          pendingOffer := None),
       Ok(committed))
  }

  function Withhold(s: State, offer: CheckpointOffer): (State, Option<CommitRefusal>) {
    if s.pendingOffer != Some(offer) then (s, Some(UnknownOffer)) else (s.(pendingOffer := None), None)
  }

  function NoteRejection(s: State): State { s.(rejected := true) }

  /** Charges staged bytes reference by reference; a refused or over-budget reference ends it. */
  function Charge(staged: nat, budget: nat, results: seq<ArtifactResult>)
    : (nat, Result<seq<ArtifactOutcome>, RejectionCode>)
    decreases |results|
  {
    if results == [] then (staged, Ok([]))
    else if results[0].Err? then (staged, Err(results[0].error))
    else
      var outcome := results[0].value;
      var fresh_ := outcome.Resolved? && !outcome.reused;
      var total := if fresh_ then SaturatingAdd(staged, outcome.byteLength) else staged;
      if fresh_ && total > budget then (total, Err(ProtocolLimitExceeded))
      else
        var (end, rest) := Charge(total, budget, results[1..]);
        (end, if rest.Ok? then Ok([outcome] + rest.value) else rest)
  }

  /** Resolves a record's references within the run's byte budget; a refusal fails the run. */
  function ResolveArtifacts(s: State, results: seq<ArtifactResult>)
    : (State, Result<seq<ArtifactOutcome>, RejectionCode>)
  {
    var (staged, r) := Charge(s.stagedBytes, s.limits.maxRunArtifactBytes, results);
    (s.(stagedBytes := staged, rejected := s.rejected || r.Err?), r)
  }

  // ---- Finishing ----

  datatype DeletionRefusal =
    | AuthorityNotDeclared | NotSnapshotMode | NoCompletenessClaim | ClaimIsPartial | ClaimScopeMismatch
    | ErrorDiagnostic | NonZeroExit | ProtocolViolation | WindowedRun | ClaimNotFinal | ClaimNotCommitted

  /** Declaration order, which is how reasons are sorted. */
  const ALL_REFUSALS: seq<DeletionRefusal> :=
    [AuthorityNotDeclared, NotSnapshotMode, NoCompletenessClaim, ClaimIsPartial, ClaimScopeMismatch,
     ErrorDiagnostic, NonZeroExit, ProtocolViolation, WindowedRun, ClaimNotFinal, ClaimNotCommitted]

  datatype DeletionAuthorization = Authorized(scope: string) | Refused(reasons: seq<DeletionRefusal>)

  datatype RunOutcome = RunComplete | RunPartial | RunFailed

  datatype RunReport = RunReport(
    outcome: RunOutcome,
    committedCursor: Option<CommittedCursor>,
    deletion: DeletionAuthorization,
    recordsAccepted: nat,
    diagnosticsAccepted: nat)

  /** When each reason stands against deletion. */
  predicate Stands(s: State, exit: ExitObservation, reason: DeletionRefusal) {
    match reason
    case AuthorityNotDeclared => s.manifest.snapshotAuthority != SnapshotAuthoritative
    case NotSnapshotMode => s.mode != Snapshot || s.snapshotScope.None?
    case NoCompletenessClaim => s.finalClaim.None?
    case ClaimIsPartial => s.finalClaim.Some? && s.finalClaim.value.state != Complete
    case ClaimScopeMismatch => s.finalClaim.Some? && s.snapshotScope != Some(s.finalClaim.value.scope)
    case ErrorDiagnostic => s.errorDiagnostic
    case NonZeroExit => exit != Exited(0)
    case ProtocolViolation => s.rejected
    case WindowedRun => s.windowed
    case ClaimNotFinal => s.finalClaim.Some? && s.finalCheckpointSeq.None?
    case ClaimNotCommitted => s.finalClaim.Some? && !s.finalClaimCommitted
  }

  function Standing(s: State, exit: ExitObservation, candidates: seq<DeletionRefusal>): seq<DeletionRefusal> {
    if candidates == [] then []
    else (if Stands(s, exit, candidates[0]) then [candidates[0]] else []) + Standing(s, exit, candidates[1..])
  }

  function Deletion(s: State, exit: ExitObservation): DeletionAuthorization {
    var reasons := Standing(s, exit, ALL_REFUSALS);
    if reasons != [] then Refused(reasons)
    else match s.snapshotScope
      case Some(scope) => Authorized(scope)
      case None => Refused([NotSnapshotMode])
  }

  predicate SnapshotSatisfied(s: State) {
    s.mode == Snapshot ==>
      s.finalClaim.Some? && s.snapshotScope.Some?
      && s.finalClaim.value == SnapshotClaim(s.snapshotScope.value, Complete)
  }

  function Outcome(s: State, exit: ExitObservation): RunOutcome {
    if s.rejected || !exit.Exited? then RunFailed
    else if exit == Exited(0) && !s.errorDiagnostic && SnapshotSatisfied(s) then RunComplete
    else if s.committed.Some? || s.recordCount > 0 then RunPartial
    else RunFailed
  }

  function Finish(s: State, exit: ExitObservation): RunReport {
    RunReport(Outcome(s, exit), s.committed, Deletion(s, exit), s.recordCount, s.diagnosticCount)
  }
}
