# Fieldnotes, modelled and proved

Fieldnotes collects evidence by running *Fields*: child processes that print one JSON frame per line.
Core reads the frames, decides what each one may do, writes Notes, and commits a cursor so the next run
starts where this one durably ended. This project models that protocol and the value types under it, and
proves what the repository promises of them.

`dafny verify dfyconfig.toml` checks everything.

## How the model is built

Each operation is also told a second time, in other terms: by the text's characters, the run's events or the
history's entries instead of the function that computes it (`Acceptance`, `Declarations`, `Narrative`, `Verdict`,
`Reports`, `RedactedSpans`, `CanonicalLines`, `Spellings`, `IdSpellings`), and the two are proved to agree.

Code that changes state is modelled by classes and loops with the source's own fields and steps
(`CollectSession`, the driver's `Collect`, `FrameReader`, `Emitter`, `StderrCapture`, `Redactor`,
`FieldStore`, `RecordIdGenerator`, the scanning passes, the serializers). Each such method is proved to compute a
function on values, and the promises are lemmas about that function, over every run, every stream or every text.

| file | what it models |
|---|---|
| `Calendar`, `Datetimes`, `DatetimeText`, `Decimal` | civil days, instants, the datetime grammar and printer, sortable filenames |
| `Ids`, `Kernel` | UUIDv7 (section 5.7 of RFC 9562), record and artifact identifiers, minting a record |
| `Utf8` | UTF-8 lengths and boundaries (section 3 of RFC 3629), truncation between characters |
| `Manifests`, `Declarations` | declared properties, manifest snapshots and the configuration that records them; what each means, entry by entry |
| `Protocol`, `Session`, `SessionRuns`, `CollectSession` | one collect run from core's side: values, whole runs, and the object |
| `Acceptance` | which events a session accepts and why it refuses the others |
| `DeletionAuthority`, `Reports`, `Replay`, `Divergence` | when a run may delete by absence; what it reports; why replaying a run changes nothing; which divergent records are refused |
| `Driver`, `Narrative`, `Verdict` | the loop that feeds a session and performs durable writes that may fail; what it does and reports, told from its events |
| `Lines`, `Framing`, `StderrBuffer`, `Emitter` | bounded reading of a chunked stream, the writer, the stderr ring buffer, the Field's emitter |
| `Redact`, `RedactedSpans` | the second redaction pass, and what it removes, character by character |
| `Canonical`, `CanonicalLines`, `CanonicalReading` | the canonical and the semantic byte form of a record, their layout, and reading a record back |
| `Spellings`, `IdSpellings`, `Utf8Order` | datetimes, filenames, identifiers and UTF-8, character by character |
| `Codes`, `Counters`, `Ordering`, `Sorting`, `Wrappers` | shared vocabulary |

## Main results

1. **A cursor never passes an undurable write.** In every state any interleaving of session operations
   reaches, everything a committed cursor covers is durable, and no later operation undoes that or slips a
   record under it (`SessionRuns.CursorNeverPassesUndurableWrite`). The driver inherits it for every frame
   stream and every failing write (`Driver.EveryRunIsSafe`).
2. **Deletion by absence is authorized exactly when the run's history earned it**
   (`DeletionAuthority.DeletionExactlyWhenEarned`), and replaying a run is a no-op, by itself or among
   anything else (`Replay.ReplayIsNoOp`, `Replay.ReplayAmongOthersIsNoOp`).
3. **What a Field emits is what core reads**, for every chunking, every sequence of calls and every way the
   sink may fail (`Emitters.ReaderSeesWhatWasEmitted`, `Framing.ReaderReturnsWhatFits`).
4. **The calendar is a bijection** between all day numbers and all valid dates, and a directory listing is a
   timeline exactly up to year 9999 (`Calendar.CivilRoundTrip`, `Calendar.DaysRoundTrip`,
   `Datetimes.ListingIsTimelineExactlyTo9999`).
5. **A registered secret that cannot overlap the redaction marker is gone from every text**, brackets or not
   (`Redact.NoSecretSurvives`). For every secret without a bracket, and every bracketed one that holds nothing for
   the pattern passes to match, that is the exact condition: an overlapping one is left in some text by some redactor
   (`Redact.GoneExactly`).
6. **Canonical bytes say the record, and not its spelling**: equal records have equal bytes
   (`Canonical.CanonicalBytesDependOnMap`, `Canonical.SemanticBytesIgnoreSpelling`), and equal bytes come from equal
   records (`CanonicalReading.CanonicalBytesReadBack`, `CanonicalReading.SemanticBytesReadBack`).
7. **A run is the story of its events.** Which events are accepted, what each leads to, and what the run reports in
   the end are told from the frames alone, artifact references included (`Acceptance.AnsweredExactly`,
   `Narratives.RunIsTold`, `Verdicts.VerdictIsTold`).
8. **Redaction removes what it names and nothing else**, told in characters: secrets, userinfo, parameters and the
   values of sensitive keys (`RedactedSpans.RedactedStepByStep`).

## Where the code and its own words differ

The model follows the code; each difference has its own lemma.

- `to_utc` is documented to refuse UTC years outside 0000-9999 but keeps 16-bit years, so it accepts up to 65535
  (`Datetimes.ToUtcExact`). Text forms hold for exactly the years up to 9999
  (`DatetimeText.ParseRenderExactly`, `Datetimes.ListingIsTimelineExactlyTo9999`).
- `ClaimNotFinal` is described as "the claim was not carried by the run's final checkpoint", but `finish` asks only
  that some final checkpoint exists and was committed. `DeletionAuthority.ClaimMayPrecedeFinalCheckpoint` is an
  authorized run whose claim came earlier; `DeletionAuthority.FinalCarriesClaimExactly` says when the two readings agree.
- How much of the stream `read_line_bounded` consumes is independent of the chunks except on an oversized line
  (`Lines.ConsumptionDependsOnChunksOnlyWhenOversized`). What it returns always is, and since that error ends the
  run the difference is never seen (`Framing.ReadingIgnoresChunks`).
- A `StderrCapture` with no room counts every byte as dropped twice (`StderrBuffer.NothingLostUncounted`).
- Redaction is meant to leave no registered secret, but a secret that can overlap the marker `[redacted]` may be
  spelled again by it: the word `redacted` itself, or `a[redacted]`. `Redact.GoneExactly` is the exact condition for
  all secrets but the bracketed ones with something for the pattern passes to match, which are under "Left out";
  `Redact.OnlyTheMarkerWordSurvives` is its bracket-free form, `Redact.BracketedSecretMayBeSpelled` an example.
- Two divergent assertions are documented (docs/approvals/A2-field-protocol.md, lines 929-940) as a defect within a
  single run only, but the code compares a record with the state a session was seeded with as well, so one changed
  object fails a seeded run (`Divergence.ChangedObjectFailsSeededRun`). `Divergence.InRunRuleHoldsExactly` says for
  which records the documented rule is what the code does.

## Modelling choices

- Texts are sequences of Unicode scalar values; byte bounds are compared with their UTF-8 length. The redactor
  scans ASCII patterns, for which positions in characters and in bytes correspond.
- Sequence numbers, counters and byte lengths are unbounded naturals, except the ones the code saturates at
  2^64 - 1 (staged bytes, the reader's total, dropped bytes), which saturate here too.
- Rust's truncating `/` is written out where an operand may be negative (`Calendar.TruncDiv`).
- The semantic fingerprint is a SHA-256 digest of the re-encoded payload. It is taken as injective and total, so a
  fingerprint *is* the payload without `v`, `type`, `run_id` and `seq`.
- JSON encoding is a parameter that decodes what it encodes and never contains an LF (`Framing.Lawful`); an event and
  its JSON value are identified. YAML plain style, quoting and number formatting are parameters of `Canonical.Style`.
- The child process is a sequence of frames, a possible failure to send the request or the cancellation, and an exit
  observation. Resolving an artifact reference is an arbitrary outcome with a byte length.

## Model

| member | source | states |
|---|---|---|
| `Calendar.CivilRoundTrip` | crates/fieldnotes-domain/src/datetime.rs:61-85 | for every integer day, in any era, the computed date is valid under the month lengths and converts back to that day |
| `Calendar.DaysRoundTrip` | crates/fieldnotes-domain/src/datetime.rs:61-85 | every valid date, negative years included, survives the trip through its day number |
| `Calendar.DateOrderIsDayOrder` | crates/fieldnotes-domain/src/datetime.rs:61-70 | calendar order of valid dates is day-number order, both ways |
| `Calendar.NextDateIsNextDay` | crates/fieldnotes-domain/src/datetime.rs:41-70 | turning the page of a calendar defined by month lengths adds exactly one day |
| `Calendar.YearOfEraExact` | crates/fieldnotes-domain/src/datetime.rs:72-80 | the correction formula for the year of an era is exact on every day of the 400-year cycle |
| `Datetimes.AtLocalSecondsExact` | crates/fieldnotes-domain/src/datetime.rs:334-349 | a second count becomes a valid reading of exactly that instant, and fails exactly outside 16-bit years |
| `Datetimes.FromUnixMillisExact` | crates/fieldnotes-domain/src/datetime.rs:253-317 | building from a clock and reading its milliseconds back is the identity; it fails exactly on an illegal offset or year |
| `Datetimes.ToUtcExact` | crates/fieldnotes-domain/src/datetime.rs:298-349 | `to_utc` keeps the instant at offset zero, and fails exactly when the UTC year leaves 16 bits |
| `Datetimes.OneSpellingPerOffset` | crates/fieldnotes-domain/src/datetime.rs:298-312 | two datetimes with one offset and one instant are equal field by field |
| `Datetimes.UtcIsCanonical` | crates/fieldnotes-domain/src/datetime.rs:321-349 | two datetimes normalise alike exactly when they denote one instant, and normalising is idempotent |
| `Datetimes.FilenameOrderIsTimeline` | crates/fieldnotes-domain/src/datetime.rs:352-358 | for UTC years up to 9999 and any offsets, filename order is instant order and equal names mean equal seconds |
| `Datetimes.ListingIsTimelineExactlyTo9999` | crates/fieldnotes-domain/src/datetime.rs:332-358 | listings are timelines for all datetimes up to a year if and only if that year is at most 9999 |
| `Datetimes.FilenameOrderFailsInYear10000` | crates/fieldnotes-domain/src/datetime.rs:352-358 | a concrete later instant, which a clock reading builds, whose filename sorts earlier |
| `DatetimeText.DateRoundTrip` | crates/fieldnotes-domain/src/datetime.rs:104-145 | a rendered date parses back to itself |
| `DatetimeText.DateHasOneSpelling` | crates/fieldnotes-domain/src/datetime.rs:104-145 | a text that parses as a date is the rendering of that date |
| `DatetimeText.ReadFraction` | crates/fieldnotes-domain/src/datetime.rs:185-202 | the digit loop reads one to nine digits scaled to nanoseconds, or refuses |
| `DatetimeText.ParseDatetime` | crates/fieldnotes-domain/src/datetime.rs:166-242 | the parser computes the grammar's function, with its error for the first defect met |
| `DatetimeText.Display` | crates/fieldnotes-domain/src/datetime.rs:361-381 | the printer computes the rendering, zeros trimmed in a loop |
| `DatetimeText.OffsetDecides` | crates/fieldnotes-domain/src/datetime.rs:166-242 | after a rendered head and fraction the whole parse is decided by the offset text |
| `DatetimeText.ParseRender` | crates/fieldnotes-domain/src/datetime.rs:166-381 | parsing the rendering of a valid datetime with year up to 9999 returns it, nanoseconds and offset included |
| `DatetimeText.ParseRenderExactly` | crates/fieldnotes-domain/src/datetime.rs:166-381 | the round trip holds for a valid datetime if and only if its year is at most 9999 |
| `DatetimeText.StricterThanRfc3339` | crates/fieldnotes-domain/src/datetime.rs:205-226 | a missing offset, `Z` and `-00:00` are refused with their own errors |
| `DatetimeText.ParsedTextIsCanonicalButForFraction` | crates/fieldnotes-domain/src/datetime.rs:166-242 | whatever parses is valid and is spelled canonically everywhere but in its fraction |
| `DatetimeText.CanonicalizerIsIdempotent` | crates/fieldnotes-domain/src/datetime.rs:166-381 | rendering after parsing keeps the value and is idempotent |
| `Spellings.RenderExactly` | crates/fieldnotes-domain/src/datetime.rs:361-381 | a datetime is written as date, `T`, time, the shortest fraction that spells its nanoseconds, and offset, digit by digit |
| `Spellings.ParseExactly` | crates/fieldnotes-domain/src/datetime.rs:166-242 | a text denotes a datetime if and only if it is its date and time, no fraction or one to nine digits that spell its nanoseconds, and its offset |
| `Spellings.BadFractionRefused` | crates/fieldnotes-domain/src/datetime.rs:185-202 | a point with no digit or more than nine behind it is malformed |
| `Spellings.TroubleExactly` | crates/fieldnotes-domain/src/datetime.rs:104-242 | a text that denotes no datetime is refused with the first thing wrong with it, from left to right, told by its characters |
| `Spellings.FilenameExactly` | crates/fieldnotes-domain/src/datetime.rs:352-358 | a filename is the digits of the UTC date and time to the second, with `T` and `Z` |
| `Spellings.InstantExactly` | crates/fieldnotes-domain/src/datetime.rs:298-312 | the instant of a wall-clock reading is days since 1970 and the time of day, less the offset |
| `Utf8.BoundaryIsPrefix` | crates/fieldnotes-field-sdk/src/truncate.rs:25-28 | every character boundary is the end of a whole number of characters |
| `Utf8.LongestFitUnique` | crates/fieldnotes-field-sdk/src/truncate.rs:20-36 | the longest prefix of whole characters that fits a byte bound is unique |
| `Utf8.Truncate` | crates/fieldnotes-field-sdk/src/truncate.rs:20-36 | returns that longest fit and exactly the number of characters lost, giving up at most three bytes |
| `Utf8Order.EncodeExactly` | crates/fieldnotes-field-sdk/src/truncate.rs:20-36 | a character takes as many bytes as the table of RFC 3629 says, and they spell its number |
| `Utf8Order.TextOrderIsByteOrder` | crates/fieldnotes-format/src/emit.rs:102-126 | comparing texts by characters is comparing their UTF-8 bytes |
| `Ids.ReadUuid` | crates/fieldnotes-domain/src/ids.rs:123-152 | the parser computes the function below, refusing shape, version and variant errors |
| `Ids.ReadDigits` | crates/fieldnotes-domain/src/ids.rs:127-142 | the loop fills sixteen bytes exactly when all 32 digits and four hyphens stand where they must |
| `Ids.WriteUuid` | crates/fieldnotes-domain/src/ids.rs:188-199 | the display loop writes the hyphenated lowercase hex |
| `Ids.UuidRoundTrip` | crates/fieldnotes-domain/src/ids.rs:123-199 | parsing the text of a UUIDv7 returns it |
| `Ids.UuidOneSpelling` | crates/fieldnotes-domain/src/ids.rs:123-199 | a text that parses is the one text of that UUID |
| `Ids.FromPartsExact` | crates/fieldnotes-domain/src/ids.rs:157-180 | building succeeds exactly below 2^48 ms and carries exactly that millisecond with version and variant set |
| `Ids.EarlierMillisSmallerText` | crates/fieldnotes-domain/src/ids.rs:157-199 | a smaller millisecond gives a smaller text, whatever the random bytes |
| `Ids.PrefixesUnambiguous` | crates/fieldnotes-domain/src/ids.rs:85-97 | no text starts with the prefixes of two kinds |
| `Ids.RecordRoundTrip` | crates/fieldnotes-domain/src/ids.rs:217-247 | a record identifier's text parses back to its kind and UUID |
| `Ids.RecordOneSpelling` | crates/fieldnotes-domain/src/ids.rs:217-247 | a text that parses is the one text of that record identifier |
| `Ids.ReadArtifact` | crates/fieldnotes-domain/src/ids.rs:266-282 | the digit loop computes the artifact parse |
| `Ids.ArtifactRoundTrip` | crates/fieldnotes-domain/src/ids.rs:266-298 | a digest's artifact text parses back to it |
| `Ids.ArtifactOneSpelling` | crates/fieldnotes-domain/src/ids.rs:266-298 | a text that parses is the one text of that digest |
| `IdSpellings.UuidExactly` | crates/fieldnotes-domain/src/ids.rs:188-199 | a UUID is written as thirty-two lowercase digits, high nibble first, in groups of 8, 4, 4, 4 and 12 |
| `IdSpellings.RecordExactly` | crates/fieldnotes-domain/src/ids.rs:85-97 | a record identifier is its kind's prefix and its UUID, kind by kind |
| `IdSpellings.ArtifactExactly` | crates/fieldnotes-domain/src/ids.rs:266-298 | an artifact identifier is its prefix and two lowercase digits for each byte |
| `IdSpellings.RandomBitsKept` | crates/fieldnotes-domain/src/ids.rs:157-180 | a minted UUID keeps every random bit that its version and variant leave room for |
| `IdSpellings.UuidTroubleExactly` | crates/fieldnotes-domain/src/ids.rs:123-152 | a text that is no UUIDv7 is refused for its shape, its version digit or its variant digit, in that order |
| `IdSpellings.RecordTroubleExactly` | crates/fieldnotes-domain/src/ids.rs:217-247 | a record identifier is refused for its prefix, or for what is wrong with the UUID behind it |
| `IdSpellings.ArtifactTroubleExactly` | crates/fieldnotes-domain/src/ids.rs:266-282 | an artifact identifier is refused for its prefix, or for anything but sixty-four lowercase digits behind it |
| `Kernels.RecordIdGenerator.Generate` | crates/fieldnotes-domain/src/ids.rs:334-352 | an identifier is minted from the clock and the next ten unused random bytes |
| `Kernels.Kernel.New` | crates/fieldnotes-app/src/kernel.rs:30-42 | refuses exactly the offsets no datetime can be rendered in |
| `Kernels.Kernel.NewRecord` | crates/fieldnotes-app/src/kernel.rs:55-61 | succeeds exactly below 2^48 ms, and both identifier and datetime carry exactly the clock's millisecond |
| `Kernels.ClockFits` | crates/fieldnotes-app/src/kernel.rs:55-61 | every 48-bit millisecond in any legal offset falls in a 16-bit year, so the datetime step cannot fail |
| `Kernels.EarlierRecordSortsFirst` | crates/fieldnotes-app/src/kernel.rs:46-61 | identifiers of one kind sort as text by creation millisecond |
| `Manifests.NewIndex` | crates/fieldnotes-field-protocol/src/declared.rs:284-331 | the index is built exactly when every declaration is the Field's own, else the first defect is reported |
| `Declarations.OwnsExactly` | crates/fieldnotes-field-protocol/src/declared.rs:284-331 | a manifest is taken exactly when every declaration has its prefix and a name of its own; the first that does not decides the code |
| `Declarations.AcceptsExactly` | crates/fieldnotes-field-protocol/src/declared.rs:212-261 | a value suits a shape exactly when it has its cardinality and kind and its dates and datetimes parse, and each misfit has its code |
| `Declarations.CheckExactly` | crates/fieldnotes-field-protocol/src/declared.rs:340-413 | a property is admitted exactly when it is the Field's own as last declared, or the vocabulary's and not derived, and suits its shape; each refusal has its code |
| `Manifests.AgreementIsExtension` | crates/fieldnotes-field-protocol/src/declared.rs:480-520 | agreement is exactly: same cursor format and every stored declaration kept unchanged |
| `Manifests.AgreementIsPartialOrder` | crates/fieldnotes-field-protocol/src/declared.rs:480-520 | agreement is reflexive, antisymmetric and transitive |
| `Declarations.AgreementExactly` | crates/fieldnotes-app/src/fields.rs:439-470 | what a recorded manifest answers to a reported one: first, unchanged or updated, or the migration it needs, entry by entry |
| `Manifests.FieldStore.RecordManifest` | crates/fieldnotes-app/src/fields.rs:439-470 | any refusal changes nothing; a change is exactly that Field's manifest replaced by one that agrees with it, also when the write reports a failure |
| `Manifests.RecordedDeclarationsPersist` | crates/fieldnotes-app/src/fields.rs:428-470 | over any calls and store failures, the cursor format and every once-declared shape never change or disappear |
| `Manifests.AcceptanceIsMonotone` | crates/fieldnotes-field-protocol/src/declared.rs:340-413 | growing one stem's declarations never takes an accepted value away |
| `Manifests.AcceptedValuesStayAccepted` | crates/fieldnotes-app/src/fields.rs:428-470 | a value an earlier recorded manifest admits is admitted under every later one of the same stem |
| `CollectSessions.CollectSession.New` | crates/fieldnotes-field-protocol/src/session.rs:480-567 | a session starts, seeded with core's current state, exactly when the manifest owns its declarations |
| `CollectSessions.CollectSession.DurableThrough` | crates/fieldnotes-field-protocol/src/session.rs:531-541 | the loop finds the highest record with no undurable record at or below it |
| `CollectSessions.CollectSession.FirstUndurableThrough` | crates/fieldnotes-field-protocol/src/session.rs:545-550 | finds the least undurable covered record, and none exactly when all are durable |
| `CollectSessions.CollectSession.AdvanceSeq` | crates/fieldnotes-field-protocol/src/session.rs:574-606 | duplicate, regression and gap each latch the rejection with their own code; only the successor advances |
| `CollectSessions.CollectSession.AdmitEvent` | crates/fieldnotes-field-protocol/src/session.rs:569-630 | the run, order and sequence checks every event passes, in order |
| `CollectSessions.CollectSession.CheckProperties` | crates/fieldnotes-field-protocol/src/session.rs:725-767 | every candidate's bounds are checked before the declaration of any |
| `CollectSessions.CollectSession.CheckPayload` | crates/fieldnotes-field-protocol/src/session.rs:677-794 | the first defect of a record against its manifest and limits |
| `CollectSessions.CollectSession.Dispose` | crates/fieldnotes-field-protocol/src/session.rs:796-821 | write, remove, no change or divergence, from what was last asserted under the key |
| `CollectSessions.CollectSession.AcceptRecordEvent` | crates/fieldnotes-field-protocol/src/session.rs:662-829 | the whole new state and answer for a record, accepted or refused |
| `CollectSessions.CollectSession.CheckCheckpoint` | crates/fieldnotes-field-protocol/src/session.rs:839-943 | the first defect of a checkpoint, its count compared with the newly covered records |
| `CollectSessions.CollectSession.AcceptCheckpointEvent` | crates/fieldnotes-field-protocol/src/session.rs:831-960 | the whole new state and offer for a checkpoint, accepted or refused |
| `CollectSessions.CollectSession.AcceptDiagnosticEvent` | crates/fieldnotes-field-protocol/src/session.rs:962-986 | the whole new state and answer for a diagnostic |
| `CollectSessions.CollectSession.AcceptEvent` | crates/fieldnotes-field-protocol/src/session.rs:635-660 | refuses after a rejection or with an offer unresolved, else dispatches; the invariant is kept |
| `CollectSessions.CollectSession.ResolveReferences` | crates/fieldnotes-field-protocol/src/session.rs:998-1041 | charges only bytes not already held, stops and latches at the first refusal or overrun |
| `CollectSessions.CollectSession.MarkDurable` | crates/fieldnotes-field-protocol/src/session.rs:1045-1047 | adds one sequence number to the durable set and changes nothing else |
| `CollectSessions.CollectSession.CommitOffer` | crates/fieldnotes-field-protocol/src/session.rs:1051-1083 | commits only the pending offer, only with everything covered durable, and never backwards |
| `CollectSessions.CollectSession.WithholdOffer` | crates/fieldnotes-field-protocol/src/session.rs:1089-1095 | drops exactly the pending offer without failing the run |
| `CollectSessions.CollectSession.CollectReasons` | crates/fieldnotes-field-protocol/src/session.rs:1128-1164 | pushing, sorting and deduplicating lists every standing reason once, in declaration order |
| `CollectSessions.CollectSession.FinishRun` | crates/fieldnotes-field-protocol/src/session.rs:1105-1181 | outcome, cursor, deletion authority and counts of the finished run |
| `Acceptance.PayloadExactly` | crates/fieldnotes-field-protocol/src/session.rs:677-794 | a record is allowed exactly when its kind, note type, sizes, properties, references and deletion are; the first condition that fails gives its own code |
| `Acceptance.AnsweredExactly` | crates/fieldnotes-field-protocol/src/session.rs:569-986 | in every reachable state the answer to any event is decided by a list of conditions told from the state, the request and the manifest |
| `Acceptance.AcceptedEventsConform` | crates/fieldnotes-field-protocol/src/session.rs:569-829 | over any run each accepted event has the run's id and the next number, and each accepted record is one the manifest and limits allow |
| `SessionRuns.AcceptRefused` | crates/fieldnotes-field-protocol/src/session.rs:569-660 | a refused event latches the rejection and changes nothing else but possibly the sequence counter |
| `SessionRuns.AcceptGranted` | crates/fieldnotes-field-protocol/src/session.rs:635-986 | an accepted event takes the next sequence number and updates only its own part of the session |
| `SessionRuns.RunInv` | crates/fieldnotes-field-protocol/src/session.rs:448-1102 | the invariant tying counters, coverages, sequence sets and the pending offer holds in every reachable state |
| `SessionRuns.RunOnward` | crates/fieldnotes-field-protocol/src/session.rs:543-1102 | sequence sets and coverages only grow, and a new record always lands above every earlier sequence number |
| `SessionRuns.DurableIsHistory` | crates/fieldnotes-field-protocol/src/session.rs:1045-1047 | the durable set is what it was at the start plus exactly the writes the run reports as completed |
| `SessionRuns.CursorNeverPassesUndurableWrite` | crates/fieldnotes-field-protocol/src/session.rs:543-1083 | whenever a cursor is committed the run has reported every write it covers, then and after any further operations |
| `SessionRuns.CommitExactlyWhenDurable` | crates/fieldnotes-field-protocol/src/session.rs:1051-1083 | for the pending offer of an unrejected session, commit succeeds exactly when all covered records are durable |
| `SessionRuns.NotMonotonicIsUnreachable` | crates/fieldnotes-field-protocol/src/session.rs:1067-1072 | no reachable session answers that a commit would go backwards |
| `SessionRuns.RefusalNamesFirstGap` | crates/fieldnotes-field-protocol/src/session.rs:1061-1066 | a durability refusal's watermark is just below the first undurable covered record |
| `SessionRuns.CommitAnswers` | crates/fieldnotes-field-protocol/src/session.rs:1051-1095 | only the pending offer is committed or withheld, and none is committed after a rejection |
| `Reports.CommittedIsHistory` | crates/fieldnotes-field-protocol/src/session.rs:1051-1083 | over any run the committed cursor is the text, format version and coverage of the last committed offer, which an accepted checkpoint made |
| `SessionRuns.WatermarkAgreesWithGuard` | crates/fieldnotes-field-protocol/src/session.rs:531-550 | the watermark and the commit guard agree, up to sequence numbers that are not records |
| `SessionRuns.RejectionIsFinal` | crates/fieldnotes-field-protocol/src/session.rs:635-1118 | after a rejection cursor, counts and seen keys are frozen and the report is failed and refuses deletion |
| `SessionRuns.CoverageIsConserved` | crates/fieldnotes-field-protocol/src/session.rs:821-886 | declared counts sum to the accepted records at or below the last coverage; the remainder is those above it |
| `DeletionAuthority.FlagsAreHistory` | crates/fieldnotes-field-protocol/src/session.rs:917-1102 | claim, final, committed, error and rejection flags say exactly what the run's history shows |
| `DeletionAuthority.DeletionExactlyWhenEarned` | crates/fieldnotes-field-protocol/src/session.rs:1105-1173 | deletion of a scope is authorized if and only if the history shows every one of its conditions |
| `DeletionAuthority.AuthorityImpliesCompleteAndCommitted` | crates/fieldnotes-field-protocol/src/session.rs:1105-1181 | an authorized run is complete and its committed coverage is the last checkpoint's, all durable |
| `DeletionAuthority.RefusalListsEveryReason` | crates/fieldnotes-field-protocol/src/session.rs:1128-1173 | a refusal lists exactly the standing reasons, and there is one exactly when some reason stands |
| `Reports.ReportIsHistory` | crates/fieldnotes-field-protocol/src/session.rs:1105-1181 | every member of the report is told by the history: cursor, counts, outcome, and for a refused deletion exactly the objections that stand, in order |
| `DeletionAuthority.MismatchNeverStands` | crates/fieldnotes-field-protocol/src/session.rs:1138-1140 | the scope-mismatch reason is unreachable |
| `DeletionAuthority.EmptyMeansScoped` | crates/fieldnotes-field-protocol/src/session.rs:1169-1171 | the fallback for no reasons without a scope is unreachable |
| `DeletionAuthority.ClaimMayPrecedeFinalCheckpoint` | crates/fieldnotes-field-protocol/src/session.rs:328-329 | a concrete authorized run, of decodable frames, whose claim came before its final checkpoint |
| `DeletionAuthority.FinalCarriesClaimExactly` | crates/fieldnotes-field-protocol/src/session.rs:917-1173 | in an authorized run the final checkpoint carries the authorizing claim exactly when it carries any |
| `Replay.AcceptedStaysCurrent` | crates/fieldnotes-field-protocol/src/session.rs:796-829 | without version ordering, every accepted payload is the current state of its key at the end of the run |
| `Replay.RecognisedReplay` | crates/fieldnotes-field-protocol/src/session.rs:558-829 | a session that recognises every payload answers no-change throughout and keeps its current state |
| `Replay.ReplayIsNoOp` | crates/fieldnotes-field-protocol/src/session.rs:425-829 | under limits at least as large, replaying a run under a new run id and fresh numbers accepts every record as no change |
| `Replay.RecordAmongOthers` | crates/fieldnotes-field-protocol/src/session.rs:558-829 | in a session that recognises every payload, each record is a no-op exactly when it arrives in turn, and otherwise fails the run for good |
| `Replay.ReplayAmongOthersIsNoOp` | crates/fieldnotes-field-protocol/src/session.rs:425-829 | the same with checkpoints, diagnostics and any operations between the records, in any order: the current state never changes, and an unrejected run took every record as no change |
| `Divergence.RefusedExactly` | crates/fieldnotes-field-protocol/src/session.rs:796-821 | without version ordering a record is refused exactly when another frame of the run contradicts it or it differs from the seed |
| `Divergence.InRunRuleHoldsExactly` | crates/fieldnotes-field-protocol/src/session.rs:564-567 | refusal means two contradicting frames of the run if and only if no seed differs whose key the run has not yet asserted |
| `Divergence.ChangedObjectFailsSeededRun` | crates/fieldnotes-field-protocol/src/session.rs:796-821 | a concrete seeded run that its one record of a changed object fails |
| `Driver.Install` | crates/fieldnotes-field-protocol/src/conformance.rs:1233-1284 | artifacts, then the Note, and only a completed write is recorded durable; a refusal leaves no action |
| `Driver.Decide` | crates/fieldnotes-field-protocol/src/conformance.rs:1177-1194 | an offer is committed and listed, or withheld with its reason |
| `Driver.TakeEvent` | crates/fieldnotes-field-protocol/src/conformance.rs:1136-1200 | one event's whole effect on session, events, actions, cursors, count and cancellation |
| `Driver.Collect` | crates/fieldnotes-field-protocol/src/conformance.rs:1072-1231 | the loop computes the run for any frames and durability policy, and that run is safe |
| `Driver.CommitKeepsConsistent` | crates/fieldnotes-field-protocol/src/conformance.rs:1177-1187 | at a commit every covered accepted record already has its note in the actions |
| `Driver.OfferGrantedExactly` | crates/fieldnotes-field-protocol/src/conformance.rs:1177-1194 | with all other writes durable an offer is refused exactly when it reaches the accepted record whose write failed |
| `Driver.StoppedDrive` | crates/fieldnotes-field-protocol/src/conformance.rs:1122-1140 | once something is rejected no later frame is read |
| `Driver.EveryNoteHasCause` | crates/fieldnotes-field-protocol/src/conformance.rs:1263-1282 | in any run a written or removed Note has an accepted upsert or deletion behind it that differs from what was last asserted under its key, a kept one a record equal to it; the run leaves current exactly what its records asserted, in order |
| `Driver.EveryRunIsSafe` | crates/fieldnotes-field-protocol/src/conformance.rs:1072-1284 | notes precede every commit that covers them, the committed cursors are, text and version included, those of exactly the accepted checkpoints no failed write stands below, and the run is a session run |
| `Narratives.ChargeExactly` | crates/fieldnotes-field-protocol/src/session.rs:998-1041 | references are charged in order up to the first that is refused or whose fresh bytes pass the budget, which gives the code |
| `Narratives.RunIsTold` | crates/fieldnotes-field-protocol/src/conformance.rs:1072-1284 | the actions of every run are the story of its accepted events, references included; a faulty reference fails the run and its record is never noted; each frame not followed has its refusal |
| `Narratives.UnstartedIsTold` | crates/fieldnotes-field-protocol/src/conformance.rs:1085-1117 | a manifest that starts no session leaves a failed run that does nothing but reject |
| `Narratives.NotesFollowReferences` | crates/fieldnotes-field-protocol/src/conformance.rs:1242-1282 | right before every note and write failure stand the references of its own record, one by one as they resolved |
| `Verdicts.VerdictIsTold` | crates/fieldnotes-field-protocol/src/session.rs:1105-1181 | outcome, counts and deletion authority of every driven run are told by its accepted events, its rejection and the exit |
| `Lines.ReadLineByContent` | crates/fieldnotes-field-protocol/src/framing.rs:200-262 | whatever the chunks, the result is the line the bytes spell, or the error they earn |
| `Lines.ReadLineLeaves` | crates/fieldnotes-field-protocol/src/framing.rs:200-262 | what stays unread is a suffix: all after a line, nothing at the end, within the ceiling when oversized |
| `Lines.ChunkingIsInvisible` | crates/fieldnotes-field-protocol/src/framing.rs:200-262 | two chunkings of one stream give one result, and one remainder unless the line is oversized |
| `Lines.ConsumptionDependsOnChunksOnlyWhenOversized` | crates/fieldnotes-field-protocol/src/framing.rs:225-258 | consumption is independent of chunks if and only if an LF is among the first `max` bytes, no more than `max` bytes follow, or `max` is zero |
| `Framing.FrameReads` | crates/fieldnotes-field-protocol/src/framing.rs:287-318 | a written frame is exactly one line and reads back as its value |
| `Framing.ErrorIsFinal` | crates/fieldnotes-field-protocol/src/framing.rs:102-155 | after any error every later call is refused |
| `Framing.ReadingIgnoresChunks` | crates/fieldnotes-field-protocol/src/framing.rs:102-155 | every run of calls answers the same for every chunking of the same bytes |
| `Framing.FitIsLongest` | crates/fieldnotes-field-protocol/src/framing.rs:118-128 | the frames delivered under a byte bound are the longest prefix the bound admits |
| `Framing.ReaderReturnsWhatFits` | crates/fieldnotes-field-protocol/src/framing.rs:102-155 | the i-th call's answer on any stream of frames and remainder: frame, limit error, ending or poison |
| `Framing.LineAnswered` | crates/fieldnotes-field-protocol/src/framing.rs:102-155 | any whole line is answered with the limit, UTF-8 or JSON error it earns, in that order, or with its value |
| `Framing.FrameReader.ReadLineBounded` | crates/fieldnotes-field-protocol/src/framing.rs:200-262 | the loop terminates, never holds more than the ceiling, and computes the scan |
| `Framing.FrameReader.DeliverLine` | crates/fieldnotes-field-protocol/src/framing.rs:117-154 | a line is counted before it is decoded; over the bound, not UTF-8 or not JSON poisons |
| `Framing.FrameReader.Next` | crates/fieldnotes-field-protocol/src/framing.rs:102-155 | one call's reply and the reader's whole new state |
| `StderrBuffer.StderrCapture.Push` | crates/fieldnotes-field-protocol/src/framing.rs:380-392 | the buffer is always the last bytes of everything pushed, with the drop counter that length implies |
| `StderrBuffer.TailAndCount` | crates/fieldnotes-field-protocol/src/framing.rs:380-398 | what is kept is the last bytes pushed, as many as there is room for, and what is counted as dropped is the rest |
| `StderrBuffer.NothingLostUncounted` | crates/fieldnotes-field-protocol/src/framing.rs:380-398 | kept plus dropped equals pushed exactly under the stated condition on capacity and saturation |
| `Emitters.EmitOutcome` | crates/fieldnotes-field-sdk/src/emit.rs:86-129 | a call answers true exactly when limits, ceiling and no earlier failure allow it, and then lands one whole frame |
| `Emitters.EmitExactly` | crates/fieldnotes-field-sdk/src/emit.rs:86-205 | exactly what one call writes, counts and latches, from the counters, the ceilings and the sink |
| `Emitters.EmitAllFaithful` | crates/fieldnotes-field-sdk/src/emit.rs:86-205 | the sink holds exactly the frames whose call answered true, within all ceilings, plus at most a torn frame of the one call that failed |
| `Emitters.ReaderSeesWhatWasEmitted` | crates/fieldnotes-field-sdk/src/emit.rs:86-205 | one sequence answers every call of a reader: exactly the emitted events in order, or the longest prefix within the bound; a failing sink adds to it at most the event of the call that failed, or leaves a refused part of that frame |
| `Emitters.Emitter.NextSeq` | crates/fieldnotes-field-sdk/src/emit.rs:74-77 | sequence numbers start at one and increase by one |
| `Emitters.Emitter.WriteEvent` | crates/fieldnotes-field-sdk/src/emit.rs:188-205 | one write's effect; a failure is latched and nothing is attempted after it |
| `Emitters.Emitter.EmitRecord` | crates/fieldnotes-field-sdk/src/emit.rs:86-95 | refuses at the record ceiling and counts only what was emitted |
| `Emitters.Emitter.EmitDiagnostic` | crates/fieldnotes-field-sdk/src/emit.rs:99-108 | refuses at the diagnostic ceiling and counts only what was emitted |
| `Emitters.Emitter.EmitCheckpoint` | crates/fieldnotes-field-sdk/src/emit.rs:118-124 | refuses a cursor longer than the run allows |
| `Emitters.Emitter.EmitManifest` | crates/fieldnotes-field-sdk/src/emit.rs:127-129 | writes a manifest unless a write already failed |
| `Redact.MaskingSpellsNothing` | crates/fieldnotes-field-protocol/src/redact.rs:110-122 | replacing spans by the marker never spells a secret that cannot overlap the marker and was not in the text |
| `Redact.ReplacedIsGone` | crates/fieldnotes-field-protocol/src/redact.rs:113-117 | after its replacement a secret that cannot overlap the marker occurs nowhere, not even across a replacement |
| `Redact.UserinfoSource` | crates/fieldnotes-field-protocol/src/redact.rs:204-228 | the userinfo pass only replaces disjoint spans of its input by the marker |
| `Redact.UserinfoIsGone` | crates/fieldnotes-field-protocol/src/redact.rs:204-228 | after the pass no authority in the text names a user and a password |
| `Redact.RedactUrlUserinfo` | crates/fieldnotes-field-protocol/src/redact.rs:204-228 | the loop terminates and computes the pass |
| `Redact.NeedlesDoNotOverlap` | crates/fieldnotes-field-protocol/src/redact.rs:267-284 | skipping past a non-qualifying occurrence of `name=` skips no other occurrence |
| `Redact.FindParameter` | crates/fieldnotes-field-protocol/src/redact.rs:267-284 | the search returns the first qualifying occurrence, or none when there is none |
| `Redact.ParameterSource` | crates/fieldnotes-field-protocol/src/redact.rs:232-256 | a parameter pass only replaces disjoint spans of its input |
| `Redact.ParameterValuesRemoved` | crates/fieldnotes-field-protocol/src/redact.rs:232-256 | kept text names the parameter only right before a removed value, which runs to the first terminator |
| `Redact.RedactParameter` | crates/fieldnotes-field-protocol/src/redact.rs:240-253 | the inner loop terminates and computes one parameter's pass |
| `Redact.RedactParameters` | crates/fieldnotes-field-protocol/src/redact.rs:232-256 | the passes run in the listed order, each on what the earlier ones left |
| `Redact.KeyValueSource` | crates/fieldnotes-field-protocol/src/redact.rs:304-334 | the key-value pass only replaces disjoint spans of its input |
| `Redact.KeyValuesRemoved` | crates/fieldnotes-field-protocol/src/redact.rs:304-334 | kept text starts no sensitive key with a value except the key of the value removed next |
| `Redact.SensitiveValueSpan` | crates/fieldnotes-field-protocol/src/redact.rs:337-378 | the cursor loops find the separator and the value after a key fragment |
| `Redact.RedactKeyValues` | crates/fieldnotes-field-protocol/src/redact.rs:304-334 | one left-to-right scan computes the pass |
| `Redact.NoSecretSurvives` | crates/fieldnotes-field-protocol/src/redact.rs:110-122 | no registered secret that cannot overlap the marker occurs in the final output, whatever the other passes do |
| `Redact.BracketFreeExactly` | crates/fieldnotes-field-protocol/src/redact.rs:103-107 | a registered secret without brackets overlaps the marker exactly when it is the word inside it |
| `Redact.GoneExactly` | crates/fieldnotes-field-protocol/src/redact.rs:103-122 | a registered secret that has no bracket, or holds nothing for the pattern passes to match, is gone from every text of every redactor if and only if it cannot overlap the marker |
| `Redact.HarmlessPasses` | crates/fieldnotes-field-protocol/src/redact.rs:204-378 | a text without a scheme or an `@`, without any `name=`, and without a sensitive key or a separator passes the pattern passes unchanged |
| `Redact.HarmlessParts` | crates/fieldnotes-field-protocol/src/redact.rs:110-122 | completing the marker inside such a secret gives the pattern passes nothing to match either |
| `Redact.SpelledStays` | crates/fieldnotes-field-protocol/src/redact.rs:110-122 | a secret the pattern passes leave spelled by the marker between its own parts survives in some text of some redactor |
| `Redact.UserinfoSecretIsGone` | crates/fieldnotes-field-protocol/src/redact.rs:110-122 | a secret that holds a whole userinfo clear of the marker is gone from every text, overlap or not |
| `Redact.OverlapMayStillBeGone` | crates/fieldnotes-field-protocol/src/redact.rs:110-122 | a concrete bracketed secret that holds a whole userinfo, overlaps the marker and is still gone from every text |
| `Redact.OnlyTheMarkerWordSurvives` | crates/fieldnotes-field-protocol/src/redact.rs:103-122 | a bracket-free registered secret is gone from every text if and only if it is not that word |
| `Redact.BracketedSecretMayBeSpelled` | crates/fieldnotes-field-protocol/src/redact.rs:103-122 | a concrete bracketed secret that overlaps the marker and survives |
| `Redact.Redactor.RegisterSecret` | crates/fieldnotes-field-protocol/src/redact.rs:103-107 | exactly texts of at least eight bytes join the ordered set |
| `Redact.Redactor.RedactOne` | crates/fieldnotes-field-protocol/src/redact.rs:110-122 | runs every pass in order and leaves no registered secret that cannot overlap the marker |
| `Redact.Redactor.Leaks` | crates/fieldnotes-field-protocol/src/redact.rs:129-133 | true exactly when some registered secret occurs in the text |
| `RedactedSpans.KeyValueExactly` | crates/fieldnotes-field-protocol/src/redact.rs:304-378 | a value is found behind a key exactly when a sensitive word starts a name there that a separator and a value follow, and it runs to its own terminator |
| `RedactedSpans.KeyValuesMasked` | crates/fieldnotes-field-protocol/src/redact.rs:304-334 | the key-value pass removes every sensitive value of its input and nothing else |
| `RedactedSpans.ValuesMasked` | crates/fieldnotes-field-protocol/src/redact.rs:232-256 | kept text names a parameter only right before a removed value, which ends at the first of its terminators |
| `RedactedSpans.UserinfoMasked` | crates/fieldnotes-field-protocol/src/redact.rs:204-228 | the userinfo pass removes every user and password of an authority in its input and nothing else |
| `RedactedSpans.NoUserinfoLeft` | crates/fieldnotes-field-protocol/src/redact.rs:204-228 | and leaves none in its output |
| `RedactedSpans.RedactedStepByStep` | crates/fieldnotes-field-protocol/src/redact.rs:110-122 | redaction is each secret's masking, the userinfo pass, the ten parameter passes and the key-value pass, each told character by character |
| `Canonical.CanonicalOrder` | crates/fieldnotes-format/src/emit.rs:104-126 | every property is listed exactly once: structural ones in their order, then all others ascending |
| `Canonical.SetListsAscend` | crates/fieldnotes-format/src/emit.rs:72-97 | a set-like list is written as its items once each, ascending by text |
| `Canonical.AppendEntry` | crates/fieldnotes-format/src/emit.rs:54-100 | one property's lines are appended, or its error returned |
| `Canonical.OrderEntries` | crates/fieldnotes-format/src/emit.rs:104-123 | filtering, sorting and collecting compute the canonical order |
| `Canonical.CanonicalRecordString` | crates/fieldnotes-format/src/emit.rs:129-144 | the serializer computes the canonical text or the first error |
| `Canonical.SemanticRecordString` | crates/fieldnotes-format/src/emit.rs:146-187 | the serializer computes the semantic encoding or the first error |
| `Canonical.CanonicalBytesDependOnMap` | crates/fieldnotes-format/src/emit.rs:54-144 | canonical bytes depend only on the key-to-value map, the body and set-like lists as sets |
| `Canonical.EntryOrderDoesNotMatter` | crates/fieldnotes-format/src/emit.rs:104-187 | reordering a record's entries changes neither byte form |
| `Canonical.SemanticBytesIgnoreSpelling` | crates/fieldnotes-format/src/emit.rs:146-187 | semantic bytes are equal for records that differ only in bookkeeping and in how instants' offsets are spelled |
| `CanonicalLines.CanonicalLayout` | crates/fieldnotes-format/src/emit.rs:34-144 | the text is a fence, each property's lines in canonical order, a fence, an empty line and the body; the first number that is not finite is the error |
| `CanonicalLines.SemanticLayout` | crates/fieldnotes-format/src/emit.rs:146-187 | the same for the properties that are not bookkeeping, ascending by key and with every datetime in UTC |
| `CanonicalReading.CanonicalBytesReadBack` | crates/fieldnotes-format/src/emit.rs:34-144 | equal canonical bytes mean equal bodies, the same properties and the same values, up to set-like lists and empty ones |
| `CanonicalReading.SemanticBytesReadBack` | crates/fieldnotes-format/src/emit.rs:146-187 | equal semantic bytes mean equal bodies and, outside bookkeeping, values that mean the same |
| `Sorting.SortDedupDependsOnSet` | crates/fieldnotes-format/src/emit.rs:86-87 | sorting then deduplicating forgets order and repetition, and nothing else |

## Left out

- Child processes, pipes, threads, timeouts, environment building and exit classification: operating-system work, seen here as frames and an exit observation.
- Opening, hashing and identifying artifact files, paths, staging and the notebook store: file-system work; an artifact reference resolves to an arbitrary outcome.
- Keychain, OAuth and the credential channel, the command line, rendering and timezone lookup.
- JSON decoding and the per-field validators of frames, the token grammars, and the property and stem registries: taken as parameters.
- Rejection details: only the codes are modelled.
- Protocol.SemanticFingerprint: the digest is taken as injective and total, so the one error path of a record that does not latch the rejection (session.rs, line 796) is not modelled.
- CollectSessions.CollectSession.AcceptRecordEvent: for the same reason, does not model a record whose fingerprint cannot be encoded.
- Framing.FrameReader: `next_event`, `next_core_frame` and `next_credential_frame` only decode what `Next` returns.
- Emitters.Emitter: the escape hatches `raw_json` and `raw_bytes`, which promise nothing, and `checked_json`, which decodes and dispatches; a value always encodes, so the encoding error of `write_value` does not arise.
- Redact.Redactor: `redact_diagnostic` and `redact_log`, which apply `redact` to each member and each line.
- Redact.GoneExactly: for a bracketed secret that holds something for the pattern passes to match (`://` together with `@`, a `name=`, or a sensitive key word together with `:` or `=`), only one direction is stated, `Redact.ClearIsAlwaysGone`. The converse is false there (`Redact.OverlapMayStillBeGone`): whether such a secret survives depends on what those passes do to it in every surrounding text, and is stated only through them (`Redact.SpelledStays`, `Redact.UserinfoSecretIsGone`).
- Canonical.Style: the plain-style test, string quoting and number formatting are parameters, so nothing is said about reading the bytes back.
- Version negotiation, Field identifiers, run and grant identifiers, and percent-encoding.
