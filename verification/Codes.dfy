/** The rejection codes core reports, and why a run's absence may not delete. */
module Codes {
  datatype RejectionCode =
    | ProtocolDuplicateSeq | ProtocolSeqRegression | ProtocolSeqGap | ProtocolUnexpectedOrder
    | ProtocolLimitExceeded | ProtocolSchemaInvalid | ProtocolCoverageMismatch
    | ProtocolOversizedFrame | ProtocolTruncatedFrame | ProtocolInvalidUtf8 | ProtocolNotJson
    | ManifestUndeclaredCapability | ManifestCursorFormatChanged | ManifestPropertyTypeChanged
    | RecordInvalidNoteType | RecordNoteTypeNotDeclared | RecordDuplicateDivergentInRun
    | RecordForeignPrefix | RecordUndeclaredProperty | RecordUnknownProperty
    | RecordPropertyTypeMismatch | RecordInvalidDate | RecordInvalidDatetime
    | DeletionUnauthorized | SnapshotCompletenessContradicted | SnapshotScopeWidened
    | ArtifactRefused
}
