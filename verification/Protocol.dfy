/** The frames a Field sends and the request a collect run answers, after decoding. */
module Protocol {
  import opened Wrappers
  import opened Manifests
  import opened Utf8

  datatype Change = Upsert | Delete

  /** An artifact reference, named by its handle; resolving it is a file-system matter. */
  datatype ArtifactRef = ArtifactRef(handle: string)

  /**
   * Everything a record says about its object. The transport members (`v`, `type`,
   * `run_id`, `seq`) are kept apart; the members no rule inspects travel in `others`.
   */
  datatype RecordPayload = RecordPayload(
    change: Change,
    sourceScope: string,
    sourceIdentity: string,
    objectKind: Option<string>,
    noteType: Option<string>,
    body: Option<string>,
    properties: Option<seq<(string, PropertyValue)>>,
    artifacts: Option<seq<ArtifactRef>>,
    others: string)

  datatype RecordEvent = RecordEvent(runId: string, seq_: nat, payload: RecordPayload)

  /**
   * The semantic fingerprint: a digest of the re-encoded payload, taken as injective,
   * so a fingerprint is the payload itself.
   */
  type Fingerprint = RecordPayload

  function SemanticFingerprint(record: RecordEvent): Fingerprint { record.payload }

  type SourceKey = (string, string)

  function KeyOf(p: RecordPayload): SourceKey { (p.sourceScope, p.sourceIdentity) }

  datatype SnapshotState = Complete | Partial

  datatype SnapshotClaim = SnapshotClaim(scope: string, state: SnapshotState)

  datatype CheckpointEvent = CheckpointEvent(
    runId: string,
    seq_: nat,
    cursor: string,
    cursorFormatVersion: nat,
    coversThrough: nat,
    recordsCovered: nat,
    snapshot: Option<SnapshotClaim>,
    isFinal: bool)

  datatype Severity = Info | Warning | Error

  datatype DiagnosticEvent = DiagnosticEvent(runId: string, seq_: nat, severity: Severity)

  datatype FieldEvent =
    | ManifestFrame(manifest: Manifest)
    | RecordFrame(record: RecordEvent)
    | CheckpointFrame(checkpoint: CheckpointEvent)
    | DiagnosticFrame(diagnostic: DiagnosticEvent)

  datatype Limits = Limits(
    maxFrameBytes: nat,
    maxRunRecords: nat,
    maxRunDiagnostics: nat,
    maxCursorBytes: nat,
    maxBodyBytes: nat,
    maxPropertiesPerRecord: nat,
    maxListMembers: nat,
    maxPropertyValueBytes: nat,
    maxArtifactsPerRecord: nat,
    maxRunArtifactBytes: nat)

  datatype CollectionMode = Incremental | Snapshot

  datatype CollectRequest = CollectRequest(
    runId: string, mode: CollectionMode, snapshotScope: Option<string>, windowed: bool, limits: Limits)

  const NOTE_TYPES: set<string> :=
    {"text", "message", "mail", "meeting", "call", "ticket", "document", "file", "contact", "event", "voice"}

  predicate DeclaresObjectKind(manifest: Manifest, kind: string) {
    exists i :: 0 <= i < |manifest.capabilities| && manifest.capabilities[i].objectKind == kind
  }

  /** The note type of the first capability slice declared for an object kind. */
  function DeclaredNoteTypeFor(slices: seq<CapabilitySlice>, kind: string): Option<string> {
    if slices == [] then None
    else if slices[0].objectKind == kind then Some(slices[0].noteType)
    else DeclaredNoteTypeFor(slices[1..], kind)
  }

  function MemberCount(v: PropertyValue): nat {
    match v
    case TextList(ts) => |ts|
    case NumberList(ns) => |ns|
    case BooleanList(bs) => |bs|
    case _ => 1
  }

  function LongestBytes(texts: seq<string>): nat {
    if texts == [] then 0
    else
      var rest := LongestBytes(texts[1..]);
      if ByteLen(texts[0]) > rest then ByteLen(texts[0]) else rest
  }

  function MaxMemberBytes(v: PropertyValue): nat {
    match v
    case Text(t) => ByteLen(t)
    case Number(n) => ByteLen(n)
    case TextList(ts) => LongestBytes(ts)
    case NumberList(ns) => LongestBytes(ns)
    case _ => 5
  }
}
