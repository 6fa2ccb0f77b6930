/** Which events a collect session accepts and why it refuses the others, condition by condition. */
module Acceptance {
  import opened Wrappers
  import opened Codes
  import opened Declarations
  import opened Manifests
  import opened Protocol
  import opened Utf8
  import opened Session
  import opened SessionRuns

  // ---- What a record must be ----

  /** No more members than the run allows, and none of them longer. */
  predicate Fits(limits: Limits, value: PropertyValue) {
    match value
    case Text(t) => 1 <= limits.maxListMembers && ByteLen(t) <= limits.maxPropertyValueBytes
    case Number(n) => 1 <= limits.maxListMembers && ByteLen(n) <= limits.maxPropertyValueBytes
    case Boolean(_) => 1 <= limits.maxListMembers && 5 <= limits.maxPropertyValueBytes
    case TextList(ts) =>
      |ts| <= limits.maxListMembers && forall i :: 0 <= i < |ts| ==> ByteLen(ts[i]) <= limits.maxPropertyValueBytes
    case NumberList(ns) =>
      |ns| <= limits.maxListMembers && forall i :: 0 <= i < |ns| ==> ByteLen(ns[i]) <= limits.maxPropertyValueBytes
    case BooleanList(bs) => |bs| <= limits.maxListMembers && 5 <= limits.maxPropertyValueBytes
  }

  lemma {:induction false} LongestBytesExactly(texts: seq<string>, bound: nat)
    ensures LongestBytes(texts) <= bound <==> forall i :: 0 <= i < |texts| ==> ByteLen(texts[i]) <= bound
  {
    hide ByteLen;
    if texts != [] {
      LongestBytesExactly(texts[1..], bound);
      assert forall i :: 1 <= i < |texts| ==> texts[i] == texts[1..][i - 1];
    }
  }

  lemma FitsExactly(limits: Limits, value: PropertyValue)
    ensures (MemberCount(value) <= limits.maxListMembers && MaxMemberBytes(value) <= limits.maxPropertyValueBytes)
            <==> Fits(limits, value)
  {
    hide ByteLen, LongestBytes;
    match value
    case TextList(ts) => LongestBytesExactly(ts, limits.maxPropertyValueBytes);
    case NumberList(ns) => LongestBytesExactly(ns, limits.maxPropertyValueBytes);
    case _ =>
  }

  predicate ApprovedNoteType(noteType: string) {
    || noteType == "text" || noteType == "message" || noteType == "mail" || noteType == "meeting"
    || noteType == "call" || noteType == "ticket" || noteType == "document" || noteType == "file"
    || noteType == "contact" || noteType == "event" || noteType == "voice"
  }

  /** The manifest's first slice for an object kind declares this note type. */
  predicate SliceFor(slices: seq<CapabilitySlice>, kind: string, noteType: string) {
    exists i :: 0 <= i < |slices| && slices[i] == CapabilitySlice(kind, noteType)
                && forall j :: 0 <= j < i ==> slices[j].objectKind != kind
  }

  /** An object kind some slice declares, if there is one. */
  predicate KindDeclared(manifest: Manifest, p: RecordPayload) {
    p.objectKind.Some? ==>
      exists i :: 0 <= i < |manifest.capabilities| && manifest.capabilities[i].objectKind == p.objectKind.value
  }

  /** A note type that is the declared one of the object kind, if both are there. */
  ghost predicate TypeDeclared(manifest: Manifest, p: RecordPayload) {
    p.noteType.Some? && p.objectKind.Some? ==>
      forall noteType :: SliceFor(manifest.capabilities, p.objectKind.value, noteType) ==> noteType == p.noteType.value
  }

  predicate PropertiesFit(limits: Limits, p: RecordPayload) {
    p.properties.Some? ==>
      && |p.properties.value| <= limits.maxPropertiesPerRecord
      && forall i :: 0 <= i < |p.properties.value| ==> Fits(limits, p.properties.value[i].1)
  }

  ghost predicate AdmittedAt(manifest: Manifest, registry: Registry, p: RecordPayload, i: nat)
    requires p.properties.Some? && i < |p.properties.value|
  {
    Admitted(manifest, registry, p.properties.value[i].0, p.properties.value[i].1)
  }

  ghost predicate PropertiesAdmitted(manifest: Manifest, registry: Registry, p: RecordPayload) {
    p.properties.Some? ==> forall i :: 0 <= i < |p.properties.value| ==> AdmittedAt(manifest, registry, p, i)
  }

  /** The first property that is not admitted is refused with this code. */
  ghost predicate FirstInadmissible(manifest: Manifest, registry: Registry, p: RecordPayload, code: RejectionCode) {
    p.properties.Some?
    && exists i :: 0 <= i < |p.properties.value|
                   && Inadmissible(manifest, registry, p.properties.value[i].0, p.properties.value[i].1, code)
                   && forall j :: 0 <= j < i ==> AdmittedAt(manifest, registry, p, j)
  }

  /** Everything a record must be for the manifest and the run's limits to allow it. */
  ghost predicate Conforms(manifest: Manifest, limits: Limits, registry: Registry, p: RecordPayload) {
    && KindDeclared(manifest, p)
    && (p.noteType.Some? ==> ApprovedNoteType(p.noteType.value))
    && TypeDeclared(manifest, p)
    && (p.body.Some? ==> ByteLen(p.body.value) <= limits.maxBodyBytes)
    && PropertiesFit(limits, p)
    && PropertiesAdmitted(manifest, registry, p)
    && (p.artifacts.Some? ==> |p.artifacts.value| <= limits.maxArtifactsPerRecord)
    && (p.change == Delete ==> manifest.tombstonesAuthoritative)
  }

  ghost function PropertyRefusal(manifest: Manifest, registry: Registry, p: RecordPayload): Option<RejectionCode> {
    if FirstInadmissible(manifest, registry, p, RecordForeignPrefix) then Some(RecordForeignPrefix)
    else if FirstInadmissible(manifest, registry, p, RecordUndeclaredProperty) then Some(RecordUndeclaredProperty)
    else if FirstInadmissible(manifest, registry, p, RecordUnknownProperty) then Some(RecordUnknownProperty)
    else if FirstInadmissible(manifest, registry, p, RecordPropertyTypeMismatch) then Some(RecordPropertyTypeMismatch)
    else if FirstInadmissible(manifest, registry, p, RecordInvalidDate) then Some(RecordInvalidDate)
    else if FirstInadmissible(manifest, registry, p, RecordInvalidDatetime) then Some(RecordInvalidDatetime)
    else None
  }

  /** Every way a record can fail that, in the order in which they are asked, and the code of each. */
  ghost function Refusal(manifest: Manifest, limits: Limits, registry: Registry, p: RecordPayload)
    : Option<RejectionCode>
  {
    if !KindDeclared(manifest, p) then Some(ManifestUndeclaredCapability)
    else if p.noteType.Some? && !ApprovedNoteType(p.noteType.value) then Some(RecordInvalidNoteType)
    else if !TypeDeclared(manifest, p) then Some(RecordNoteTypeNotDeclared)
    else if p.body.Some? && ByteLen(p.body.value) > limits.maxBodyBytes then Some(ProtocolLimitExceeded)
    else if !PropertiesFit(limits, p) then Some(ProtocolLimitExceeded)
    else if PropertyRefusal(manifest, registry, p).Some? then PropertyRefusal(manifest, registry, p)
    else if p.artifacts.Some? && |p.artifacts.value| > limits.maxArtifactsPerRecord then Some(ProtocolLimitExceeded)
    else if p.change == Delete && !manifest.tombstonesAuthoritative then Some(DeletionUnauthorized)
    else None
  }

  lemma {:induction false} SliceExactly(slices: seq<CapabilitySlice>, kind: string)
    ensures match DeclaredNoteTypeFor(slices, kind)
            case None => forall i :: 0 <= i < |slices| ==> slices[i].objectKind != kind
            case Some(noteType) => SliceFor(slices, kind, noteType)
  {
    if slices != [] {
      SliceExactly(slices[1..], kind);
      assert forall i :: 1 <= i < |slices| ==> slices[i] == slices[1..][i - 1];
      if slices[0].objectKind == kind {
        assert slices[0] == CapabilitySlice(kind, slices[0].noteType);
      } else if DeclaredNoteTypeFor(slices[1..], kind).Some? {
        var noteType := DeclaredNoteTypeFor(slices[1..], kind).value;
        var i :| 0 <= i < |slices[1..]| && slices[1..][i] == CapabilitySlice(kind, noteType)
                 && forall j :: 0 <= j < i ==> slices[1..][j].objectKind != kind;
        assert slices[i + 1] == CapabilitySlice(kind, noteType);
      }
    }
  }

  lemma TypeDeclaredExactly(manifest: Manifest, p: RecordPayload)
    ensures TypeDeclared(manifest, p)
            <==> (p.noteType.Some? && p.objectKind.Some? ==>
                    DeclaredNoteTypeFor(manifest.capabilities, p.objectKind.value) in {None, p.noteType})
  {
    hide DeclaredNoteTypeFor;
    if p.noteType.Some? && p.objectKind.Some? {
      var kind := p.objectKind.value;
      SliceExactly(manifest.capabilities, kind);
    }
  }

  lemma KindExactly(manifest: Manifest, p: RecordPayload)
    ensures KindDefect(manifest, p)
         == if !KindDeclared(manifest, p) then Some(ManifestUndeclaredCapability)
            else if p.noteType.Some? && !ApprovedNoteType(p.noteType.value) then Some(RecordInvalidNoteType)
            else if !TypeDeclared(manifest, p) then Some(RecordNoteTypeNotDeclared)
            else None
  {
    TypeDeclaredExactly(manifest, p);
    hide TypeDeclared, DeclaredNoteTypeFor;
  }

  lemma BoundsExactly(limits: Limits, properties: seq<(string, PropertyValue)>)
    ensures WithinBounds(limits, properties) <==> forall i :: 0 <= i < |properties| ==> Fits(limits, properties[i].1)
  {
    hide Fits, MemberCount, MaxMemberBytes;
    forall i | 0 <= i < |properties|
      ensures (MemberCount(properties[i].1) <= limits.maxListMembers
               && MaxMemberBytes(properties[i].1) <= limits.maxPropertyValueBytes)
              <==> Fits(limits, properties[i].1)
    {
      FitsExactly(limits, properties[i].1);
    }
  }

  lemma {:induction false} FirstRefusalAt(index: Index, properties: seq<(string, PropertyValue)>)
    ensures var r := FirstRefusal(index, properties);
            if r.None? then forall i :: 0 <= i < |properties| ==> Check(index, properties[i].0, properties[i].1).None?
            else exists i :: 0 <= i < |properties| && Check(index, properties[i].0, properties[i].1) == r
                             && forall j :: 0 <= j < i ==> Check(index, properties[j].0, properties[j].1).None?
  {
    hide Check;
    if properties != [] {
      var rest := properties[1..];
      FirstRefusalAt(index, rest);
      assert forall i :: 1 <= i < |properties| ==> properties[i] == rest[i - 1];
      var r := FirstRefusal(index, rest);
      if Check(index, properties[0].0, properties[0].1).None? && r.Some? {
        var i :| 0 <= i < |rest| && Check(index, rest[i].0, rest[i].1) == r
                 && forall j :: 0 <= j < i ==> Check(index, rest[j].0, rest[j].1).None?;
        assert Check(index, properties[i + 1].0, properties[i + 1].1) == r;
      }
    }
  }

  /** The first refusal among a record's properties is that of its first property not admitted. */
  lemma PropertiesExactly(manifest: Manifest, registry: Registry, p: RecordPayload)
    requires p.properties.Some?
    ensures var r := FirstRefusal(IndexOf(manifest, registry), p.properties.value);
            (r.None? <==> PropertiesAdmitted(manifest, registry, p))
            && forall code :: r == Some(code) <==> FirstInadmissible(manifest, registry, p, code)
  {
    var index, properties := IndexOf(manifest, registry), p.properties.value;
    hide Check, Admitted, Inadmissible, FirstRefusal;
    forall i | 0 <= i < |properties|
      ensures Check(index, properties[i].0, properties[i].1).None? <==> AdmittedAt(manifest, registry, p, i)
      ensures forall code :: Check(index, properties[i].0, properties[i].1) == Some(code)
                             <==> Inadmissible(manifest, registry, properties[i].0, properties[i].1, code)
    {
      CheckExactly(manifest, registry, properties[i].0, properties[i].1);
    }
    FirstRefusalAt(index, properties);
    hide AdmittedAt;
    var r := FirstRefusal(index, properties);
    if r.Some? {
      var i :| 0 <= i < |properties| && Check(index, properties[i].0, properties[i].1) == r
               && forall j :: 0 <= j < i ==> Check(index, properties[j].0, properties[j].1).None?;
      forall code | FirstInadmissible(manifest, registry, p, code) ensures r == Some(code) {
        var k :| 0 <= k < |properties| && Inadmissible(manifest, registry, properties[k].0, properties[k].1, code)
                 && forall j :: 0 <= j < k ==> AdmittedAt(manifest, registry, p, j);
        assert k == i;
      }
    }
  }

  /** A refused property is refused with one of six codes. */
  lemma PropertyCodes(index: Index, name: string, value: PropertyValue)
    ensures var r := Check(index, name, value);
            r.Some? ==> r.value in {RecordForeignPrefix, RecordUndeclaredProperty, RecordUnknownProperty,
                                    RecordPropertyTypeMismatch, RecordInvalidDate, RecordInvalidDatetime}
  {
    hide IsDate, IsDatetime, PrefixFor;
  }

  lemma PropertyRefusalExactly(manifest: Manifest, registry: Registry, p: RecordPayload)
    ensures PropertyRefusal(manifest, registry, p)
         == if p.properties.Some? then FirstRefusal(IndexOf(manifest, registry), p.properties.value) else None
    ensures PropertyRefusal(manifest, registry, p).None? <==> PropertiesAdmitted(manifest, registry, p)
  {
    var index := IndexOf(manifest, registry);
    hide Check, FirstRefusal, AdmittedAt, Inadmissible, IndexOf;
    if p.properties.None? {
      assert forall code :: !FirstInadmissible(manifest, registry, p, code);
    } else {
      var properties := p.properties.value;
      PropertiesExactly(manifest, registry, p);
      FirstRefusalAt(index, properties);
      hide FirstInadmissible, PropertiesAdmitted;
      var r := FirstRefusal(index, properties);
      if r.Some? {
        var i :| 0 <= i < |properties| && Check(index, properties[i].0, properties[i].1) == r;
        PropertyCodes(index, properties[i].0, properties[i].1);
      }
    }
  }

  /** What the manifest and the limits have against a record is exactly this list of conditions. */
  lemma PayloadExactly(manifest: Manifest, limits: Limits, registry: Registry, p: RecordPayload)
    ensures PayloadDefect(manifest, limits, IndexOf(manifest, registry), p) == Refusal(manifest, limits, registry, p)
    ensures Refusal(manifest, limits, registry, p).None? <==> Conforms(manifest, limits, registry, p)
  {
    KindExactly(manifest, p);
    if p.properties.Some? { BoundsExactly(limits, p.properties.value); }
    PropertyRefusalExactly(manifest, registry, p);
    hide KindDefect, KindDeclared, ApprovedNoteType, TypeDeclared, WithinBounds, Fits, FirstRefusal, ByteLen;
    hide IndexOf, PropertiesAdmitted, PropertyRefusal;
  }

  // ---- What a session answers ----

  /** Why an event does not come in turn, if it does not. */
  function OutOfTurn(s: State, runId: string, seq_: nat): Option<RejectionCode> {
    if s.rejected || s.pendingOffer.Some? || s.finalCheckpointSeq.Some? || runId != s.runId
    then Some(ProtocolUnexpectedOrder)
    else if seq_ == s.lastSeq then Some(ProtocolDuplicateSeq)
    else if seq_ < s.lastSeq then Some(ProtocolSeqRegression)
    else if seq_ > s.lastSeq + 1 then Some(ProtocolSeqGap)
    else None
  }

  /** The session already holds this very payload, or another one, under the same source key. */
  predicate Repeats(s: State, p: RecordPayload) {
    (p.sourceScope, p.sourceIdentity) in s.seenKeys && s.seenKeys[(p.sourceScope, p.sourceIdentity)] == p
  }

  predicate Diverges(s: State, p: RecordPayload) {
    && (p.sourceScope, p.sourceIdentity) in s.seenKeys && s.seenKeys[(p.sourceScope, p.sourceIdentity)] != p
    && !s.manifest.versionOrderingSupported
  }

  ghost function RecordAnswer(s: State, registry: Registry, r: RecordEvent): Result<AcceptedEvent, RejectionCode> {
    var p := r.payload;
    if OutOfTurn(s, r.runId, r.seq_).Some? then Err(OutOfTurn(s, r.runId, r.seq_).value)
    else if s.recordCount >= s.limits.maxRunRecords then Err(ProtocolLimitExceeded)
    else if Refusal(s.manifest, s.limits, registry, p).Some? then Err(Refusal(s.manifest, s.limits, registry, p).value)
    else if Diverges(s, p) then Err(RecordDuplicateDivergentInRun)
    else
      Ok(AcceptedRecord(r.seq_, if Repeats(s, p) then NoChange else if p.change.Upsert? then WriteNote else RemoveNote))
  }

  /** The accepted records after the last coverage, up to the one offered. */
  function Coverable(s: State, c: CheckpointEvent): set<nat> {
    set q | q in s.recordsBySeq && s.lastCheckpointCoverage < q && q <= c.coversThrough
  }

  function CheckpointAnswer(s: State, c: CheckpointEvent): Result<AcceptedEvent, RejectionCode> {
    if OutOfTurn(s, c.runId, c.seq_).Some? then Err(OutOfTurn(s, c.runId, c.seq_).value)
    else if c.coversThrough >= c.seq_ then Err(ProtocolSchemaInvalid)
    else if c.coversThrough < s.lastCheckpointCoverage then Err(ProtocolUnexpectedOrder)
    else if |Coverable(s, c)| != c.recordsCovered then Err(ProtocolCoverageMismatch)
    else if ByteLen(c.cursor) > s.limits.maxCursorBytes then Err(ProtocolLimitExceeded)
    else if c.cursorFormatVersion != s.manifest.cursorFormatVersion then Err(ManifestCursorFormatChanged)
    else if c.snapshot.Some? && !(s.mode.Snapshot? && s.snapshotScope.Some?) then Err(SnapshotCompletenessContradicted)
    else if c.snapshot.Some? && c.snapshot.value.scope != s.snapshotScope.value then Err(SnapshotScopeWidened)
    else
      Ok(AcceptedCheckpoint(CheckpointOffer(c.seq_, c.cursor, c.cursorFormatVersion, c.coversThrough, c.isFinal)))
  }

  function DiagnosticAnswer(s: State, d: DiagnosticEvent): Result<AcceptedEvent, RejectionCode> {
    if OutOfTurn(s, d.runId, d.seq_).Some? then Err(OutOfTurn(s, d.runId, d.seq_).value)
    else if s.diagnosticCount >= s.limits.maxRunDiagnostics then Err(ProtocolLimitExceeded)
    else Ok(AcceptedDiagnostic(d.seq_, d.severity))
  }

  ghost function Answer(s: State, registry: Registry, event: FieldEvent): Result<AcceptedEvent, RejectionCode> {
    match event
    case ManifestFrame(_) => Err(ProtocolUnexpectedOrder)
    case RecordFrame(r) => RecordAnswer(s, registry, r)
    case CheckpointFrame(c) => CheckpointAnswer(s, c)
    case DiagnosticFrame(d) => DiagnosticAnswer(s, d)
  }

  lemma AdmitExactly(s: State, runId: string, seq_: nat)
    ensures !s.rejected && s.pendingOffer.None? ==> Admit(s, runId, seq_).1 == OutOfTurn(s, runId, seq_)
    ensures Admit(s, runId, seq_).1.None? ==> Admit(s, runId, seq_).0 == s.(lastSeq := seq_)
  {
  }

  lemma RecordAnswered(s: State, registry: Registry, r: RecordEvent)
    requires s.properties == IndexOf(s.manifest, registry)
    ensures Accept(s, RecordFrame(r)).1 == RecordAnswer(s, registry, r)
  {
    PayloadExactly(s.manifest, s.limits, registry, r.payload);
    AdmitExactly(s, r.runId, r.seq_);
    hide PayloadDefect, Refusal, IndexOf, Admit;
    if OutOfTurn(s, r.runId, r.seq_).None? { assert Accept(s, RecordFrame(r)) == AcceptRecord(s, r); }
  }

  lemma CheckpointAnswered(s: State, c: CheckpointEvent)
    ensures Accept(s, CheckpointFrame(c)).1 == CheckpointAnswer(s, c)
  {
    AdmitExactly(s, c.runId, c.seq_);
    hide Admit, ByteLen;
    if OutOfTurn(s, c.runId, c.seq_).None? {
      assert Accept(s, CheckpointFrame(c)) == AcceptCheckpoint(s, c);
      assert NewlyCovered(s.(lastSeq := c.seq_), c.coversThrough) == Coverable(s, c);
    }
  }

  /** Whatever happened before, a session's answer to an event is the one its conditions give. */
  lemma AnsweredExactly(request: CollectRequest, manifest: Manifest, registry: Registry,
                        seen: map<SourceKey, Fingerprint>, ops: seq<Op>, event: FieldEvent)
    ensures var t := Run(Initial(request, manifest, IndexOf(manifest, registry), seen), ops);
            Accept(t, event).1 == Answer(t, registry, event)
            && t.manifest == manifest && t.limits == request.limits && t.runId == request.runId
            && t.mode == request.mode && t.snapshotScope == request.snapshotScope
  {
    var s := Initial(request, manifest, IndexOf(manifest, registry), seen);
    InitialInv(request, manifest, IndexOf(manifest, registry), seen);
    RunOnward(s, ops);
    hide Inv, Run, IndexOf;
    match event
    case ManifestFrame(_) =>
    case RecordFrame(r) => RecordAnswered(Run(s, ops), registry, r);
    case CheckpointFrame(c) => CheckpointAnswered(Run(s, ops), c);
    case DiagnosticFrame(d) => AdmitExactly(Run(s, ops), d.runId, d.seq_);
  }

  // ---- What every run's history shows ----

  predicate AcceptedAt(e: Entry) { e.op.DoAccept? && e.reply.Accepted? && e.reply.event.Ok? }

  function AcceptedTotal(h: seq<Entry>): nat {
    if h == [] then 0 else AcceptedTotal(h[..|h| - 1]) + if AcceptedAt(h[|h| - 1]) then 1 else 0
  }

  predicate Numbered(event: FieldEvent, runId: string, seq_: nat) {
    match event
    case ManifestFrame(_) => false
    case RecordFrame(r) => r.runId == runId && r.seq_ == seq_
    case CheckpointFrame(c) => c.runId == runId && c.seq_ == seq_
    case DiagnosticFrame(d) => d.runId == runId && d.seq_ == seq_
  }

  lemma CountStep(s: State, op: Op)
    ensures var (t, reply) := Step(s, op);
            (AcceptedAt(Entry(op, reply)) ==> Numbered(op.event, s.runId, s.lastSeq + 1))
            && (!t.rejected ==>
                  !s.rejected && t.lastSeq == s.lastSeq + (if AcceptedAt(Entry(op, reply)) then 1 else 0))
  {
    hide Charge, PayloadDefect, CheckpointDefect, Disposition, Undurable;
    match op
    case DoAccept(event) =>
      if Accept(s, event).1.Err? { AcceptRefused(s, event); } else { AcceptedNumbered(s, event); }
    case _ =>
  }

  lemma AcceptedNumbered(s: State, event: FieldEvent)
    requires Accept(s, event).1.Ok?
    ensures Numbered(event, s.runId, s.lastSeq + 1)
    ensures Accept(s, event).0.lastSeq == s.lastSeq + 1 && !s.rejected
  {
    AcceptGranted(s, event);
    hide PayloadDefect, CheckpointDefect, Disposition;
    match event
    case ManifestFrame(_) =>
    case RecordFrame(r) => assert Accept(s, event) == AcceptRecord(s, r);
    case CheckpointFrame(c) => assert Accept(s, event) == AcceptCheckpoint(s, c);
    case DiagnosticFrame(d) => assert Accept(s, event) == AcceptDiagnostic(s, d);
  }

  lemma {:induction false} CountIsSeq(s: State, ops: seq<Op>)
    requires s.lastSeq == 0
    ensures !Run(s, ops).rejected ==> Run(s, ops).lastSeq == AcceptedTotal(Trace(s, ops))
    decreases |ops|
  {
    hide Step, AcceptedAt;
    if ops != [] {
      var n := |ops| - 1;
      CountIsSeq(s, ops[..n]);
      CountStep(Run(s, ops[..n]), ops[n]);
      var h := Trace(s, ops[..n]);
      var e := Entry(ops[n], Step(Run(s, ops[..n]), ops[n]).1);
      assert (h + [e])[..|h|] == h;
    }
  }

  /**
   * Over any run: every accepted event carries the run's id and the number right after the events
   * accepted before it, and every accepted record is one the manifest and the run's limits allow.
   */
  lemma AcceptedEventsConform(request: CollectRequest, manifest: Manifest, registry: Registry,
                              seen: map<SourceKey, Fingerprint>, ops: seq<Op>, i: nat)
    requires i < |ops|
    ensures var s := Initial(request, manifest, IndexOf(manifest, registry), seen);
            var e := Entry(ops[i], Step(Run(s, ops[..i]), ops[i]).1);
            AcceptedAt(e) ==>
              Numbered(e.op.event, request.runId, AcceptedTotal(Trace(s, ops[..i])) + 1)
              && (e.op.event.RecordFrame? ==>
                    Conforms(manifest, request.limits, registry, e.op.event.record.payload))
  {
    hide Conforms, IndexOf, Step, Accept, AcceptedTotal, Answer;
    var s := Initial(request, manifest, IndexOf(manifest, registry), seen);
    var t := Run(s, ops[..i]);
    CountIsSeq(s, ops[..i]);
    CountStep(t, ops[i]);
    InitialInv(request, manifest, IndexOf(manifest, registry), seen);
    RunOnward(s, ops[..i]);
    hide Run, Trace, Inv, Initial;
    StepReply(t, ops[i]);
    if AcceptedAt(Entry(ops[i], Step(t, ops[i]).1)) {
      AcceptedNumbered(t, ops[i].event);
      if ops[i].event.RecordFrame? {
        RecordAnswered(t, registry, ops[i].event.record);
        PayloadExactly(manifest, request.limits, registry, ops[i].event.record.payload);
      }
    }
  }
}
