/** Declared properties, manifest snapshots, and how a stored manifest may evolve. */
module Manifests {
  import opened Wrappers
  import opened Codes
  import DatetimeText

  // ---- Property shapes ----

  datatype ScalarKind = TextKind | NumberKind | BoolKind | DateKind | DatetimeKind

  datatype Cardinality = Scalar | List

  datatype ListSemantics = SetLike | Ordered

  datatype PropertyShape = PropertyShape(
    valueType: ScalarKind, cardinality: Cardinality, listSemantics: Option<ListSemantics>)

  datatype PropertyValue =
    | Text(text: string)
    | Number(spelling: string)
    | Boolean(truth: bool)
    | TextList(texts: seq<string>)
    | NumberList(spellings: seq<string>)
    | BooleanList(truths: seq<bool>)
  {
    predicate IsList() { TextList? || NumberList? || BooleanList? }
  }

  function Temporal(wellFormed: bool, code: RejectionCode): Option<RejectionCode> {
    if wellFormed then None else Some(code)
  }

  predicate IsDate(text: string) { DatetimeText.ParseDate(text).Ok? }

  predicate IsDatetime(text: string) { DatetimeText.Parse(text).Ok? }

  /** Why a value's shape disagrees with the approved one, if it does. */
  function Accepts(shape: PropertyShape, value: PropertyValue): Option<RejectionCode> {
    if (shape.cardinality == List) != value.IsList() then Some(RecordPropertyTypeMismatch)
    else match (shape.valueType, value)
      case (TextKind, Text(_)) => None
      case (TextKind, TextList(_)) => None
      case (NumberKind, Number(_)) => None
      case (NumberKind, NumberList(_)) => None
      case (BoolKind, Boolean(_)) => None
      case (BoolKind, BooleanList(_)) => None
      case (DateKind, Text(t)) => Temporal(IsDate(t), RecordInvalidDate)
      case (DateKind, TextList(ts)) => Temporal(forall t | t in ts :: IsDate(t), RecordInvalidDate)
      case (DatetimeKind, Text(t)) => Temporal(IsDatetime(t), RecordInvalidDatetime)
      case (DatetimeKind, TextList(ts)) => Temporal(forall t | t in ts :: IsDatetime(t), RecordInvalidDatetime)
      case _ => Some(RecordPropertyTypeMismatch)
  }

  // ---- Manifests ----

  datatype DeclaredProperty = DeclaredProperty(name: string, shape: PropertyShape)

  datatype CapabilitySlice = CapabilitySlice(objectKind: string, noteType: string)

  datatype SnapshotAuthority = SnapshotAuthoritative | PartialOnly | SnapshotUnsupported

  datatype Manifest = Manifest(
    fieldStem: string,
    propertyPrefix: Option<string>,
    declaredProperties: seq<DeclaredProperty>,
    capabilities: seq<CapabilitySlice>,
    versionOrderingSupported: bool,
    tombstonesAuthoritative: bool,
    snapshotAuthority: SnapshotAuthority,
    cursorFormatVersion: nat)

  /** Each declared name's shape; a later entry of the same name replaces an earlier one. */
  function DeclaredMap(entries: seq<DeclaredProperty>): map<string, PropertyShape> {
    if entries == [] then map[]
    else DeclaredMap(entries[..|entries| - 1])[entries[|entries| - 1].name := entries[|entries| - 1].shape]
  }

  // ---- The declared-property index ----

  datatype PropertyType = ScalarType(kind: ScalarKind) | ListType(kind: ScalarKind, semantics: ListSemantics)

  /** The shared vocabulary and the registered connector stems, both fixed outside this model. */
  datatype Registry = Registry(types: map<string, PropertyType>, derivedOnly: set<string>, stems: seq<string>)

  function ShapeOf(entry: PropertyType): PropertyShape {
    match entry
    case ScalarType(kind) => PropertyShape(kind, Scalar, None)
    case ListType(kind, semantics) => PropertyShape(kind, List, Some(semantics))
  }

  /** The first registered stem whose `<stem>_` prefix the name carries with something after it. */
  function PrefixFor(stems: seq<string>, name: string): Option<string> {
    if stems == [] then None
    else if stems[0] + "_" <= name && |name| > |stems[0]| + 1 then Some(stems[0])
    else PrefixFor(stems[1..], name)
  }

  datatype Index = Index(fieldStem: string, declared: map<string, PropertyShape>, registry: Registry)

  /** What is wrong with the manifest's `i`th declaration, if anything. */
  function DefectAt(manifest: Manifest, i: nat): Option<RejectionCode>
    requires i < |manifest.declaredProperties|
  {
    var name := manifest.declaredProperties[i].name;
    if manifest.propertyPrefix.None? then Some(RecordUndeclaredProperty)
    else if !(manifest.propertyPrefix.value <= name) then Some(RecordForeignPrefix)
    else if exists j :: 0 <= j < i && manifest.declaredProperties[j].name == name then Some(RecordPropertyTypeMismatch)
    else None
  }

  ghost predicate OwnsItsDeclarations(manifest: Manifest) {
    forall i :: 0 <= i < |manifest.declaredProperties| ==> DefectAt(manifest, i).None?
  }

  /** The refusal a manifest earns: that of its first defective declaration. */
  ghost predicate FirstDefect(manifest: Manifest, code: RejectionCode) {
    exists i :: 0 <= i < |manifest.declaredProperties| && DefectAt(manifest, i) == Some(code)
                && forall j :: 0 <= j < i ==> DefectAt(manifest, j).None?
  }

  lemma {:induction false} DeclaredNames(entries: seq<DeclaredProperty>)
    ensures forall name :: name in DeclaredMap(entries) <==> exists j :: 0 <= j < |entries| && entries[j].name == name
  {
    if entries != [] {
      var n := |entries| - 1;
      DeclaredNames(entries[..n]);
      forall name ensures name in DeclaredMap(entries) <==> exists j :: 0 <= j < |entries| && entries[j].name == name {
        if name in DeclaredMap(entries[..n]) {
          var j :| 0 <= j < n && entries[..n][j].name == name;
          assert entries[j].name == name;
        }
        if j :| 0 <= j < |entries| && entries[j].name == name {
          if j < n { assert entries[..n][j].name == name; }
        }
      }
    }
  }

  /** Builds the index by insertion, refusing the first declaration that is not the manifest's own. */
  method NewIndex(manifest: Manifest, registry: Registry) returns (r: Result<Index, RejectionCode>)
    ensures r.Ok? <==> OwnsItsDeclarations(manifest)
    ensures r.Ok? ==> r.value == Index(manifest.fieldStem, DeclaredMap(manifest.declaredProperties), registry)
    ensures r.Err? ==> FirstDefect(manifest, r.error)
  {
    var declared := map[];
    var entries := manifest.declaredProperties;
    for i := 0 to |entries|
      invariant declared == DeclaredMap(entries[..i])
      invariant forall j :: 0 <= j < i ==> DefectAt(manifest, j).None?
    {
      var name := entries[i].name;
      DeclaredNames(entries[..i]);
      assert forall j :: 0 <= j < i ==> entries[..i][j] == entries[j];
      match manifest.propertyPrefix {
        case Some(prefix) =>
          if !(prefix <= name) {
            assert DefectAt(manifest, i) == Some(RecordForeignPrefix);
            return Err(RecordForeignPrefix);
          }
        case None =>
          assert DefectAt(manifest, i) == Some(RecordUndeclaredProperty);
          return Err(RecordUndeclaredProperty);
      }
      if name in declared {
        assert DefectAt(manifest, i) == Some(RecordPropertyTypeMismatch);
        return Err(RecordPropertyTypeMismatch);
      }
      declared := declared[name := entries[i].shape];
      assert entries[..i + 1][..i] == entries[..i];
    }
    assert entries[..|entries|] == entries;
    r := Ok(Index(manifest.fieldStem, declared, registry));
  }

  /** Why one property candidate is refused, if it is. */
  function Check(index: Index, name: string, value: PropertyValue): Option<RejectionCode> {
    match PrefixFor(index.registry.stems, name)
    case Some(stem) =>
      if stem != index.fieldStem then Some(RecordForeignPrefix)
      else if name !in index.declared then Some(RecordUndeclaredProperty)
      else Accepts(index.declared[name], value)
    case None =>
      if name !in index.registry.types then Some(RecordUnknownProperty)
      else if name in index.registry.derivedOnly then Some(RecordUnknownProperty)
      else Accepts(ShapeOf(index.registry.types[name]), value)
  }

  // ---- Snapshots and their order ----

  datatype ManifestSnapshot = ManifestSnapshot(cursorFormatVersion: nat, declared: map<string, PropertyShape>)

  function SnapshotOf(manifest: Manifest): ManifestSnapshot {
    ManifestSnapshot(manifest.cursorFormatVersion, DeclaredMap(manifest.declaredProperties))
  }

  /** Why `current` may not replace `stored` without a migration, if it may not. */
  function CheckAgainst(stored: ManifestSnapshot, current: ManifestSnapshot): Option<RejectionCode> {
    if stored.cursorFormatVersion != current.cursorFormatVersion then Some(ManifestCursorFormatChanged)
    else if forall name | name in stored.declared ::
              name in current.declared
              && stored.declared[name].valueType == current.declared[name].valueType
              && stored.declared[name].cardinality == current.declared[name].cardinality
              && stored.declared[name].listSemantics == current.declared[name].listSemantics then None
    else Some(ManifestPropertyTypeChanged)
  }

  ghost predicate Extends(old_: ManifestSnapshot, new_: ManifestSnapshot) {
    && old_.cursorFormatVersion == new_.cursorFormatVersion
    && forall name :: name in old_.declared ==> name in new_.declared && new_.declared[name] == old_.declared[name]
  }

  /** Agreement means exactly: same cursor format, and every stored declaration kept unchanged. */
  lemma AgreementIsExtension(stored: ManifestSnapshot, current: ManifestSnapshot)
    ensures CheckAgainst(stored, current).None? <==> Extends(stored, current)
  {
  }

  /** Agreement is a partial order, so a chain of accepted updates never drifts or cycles. */
  lemma AgreementIsPartialOrder(a: ManifestSnapshot, b: ManifestSnapshot, c: ManifestSnapshot)
    ensures CheckAgainst(a, a).None?
    ensures CheckAgainst(a, b).None? && CheckAgainst(b, a).None? ==> a == b
    ensures CheckAgainst(a, b).None? && CheckAgainst(b, c).None? ==> CheckAgainst(a, c).None?
  {
    AgreementIsExtension(a, b);
    AgreementIsExtension(b, a);
    AgreementIsExtension(b, c);
    AgreementIsExtension(a, c);
    if Extends(a, b) && Extends(b, a) {
      assert a.declared.Keys == b.declared.Keys;
      assert a.declared == b.declared;
    }
  }

  // ---- The stored configuration ----

  datatype StoreError = InvalidManifest | FieldNotConfigured | MigrationRequired(code: RejectionCode) | StoreFailed

  datatype ManifestOutcome = FirstSnapshot | Unchanged | Updated

  /** A stored manifest value, which may no longer decode. */
  datatype Stored = Decodes(manifest: Manifest) | Undecodable

  /** Every configured Field and the manifest last recorded for it. */
  type Configs = map<string, Option<Stored>>

  /** What the store does during one call; a failed write may still have replaced the file. */
  datatype Disk = Works | CannotRead | WriteFails(replaced: bool)

  /** `candidate` is None when the reported value does not decode as a manifest. */
  datatype Call = Call(id: string, candidate: Option<Manifest>, disk: Disk)

  /** Why a recorded value may not be followed by a candidate, or what following it would be called. */
  function Agreement(recorded: Option<Stored>, candidate: Manifest): Result<ManifestOutcome, StoreError> {
    match recorded
    case None => Ok(FirstSnapshot)
    case Some(Undecodable) => Err(InvalidManifest)
    case Some(Decodes(stored)) =>
      var before, after := SnapshotOf(stored), SnapshotOf(candidate);
      match CheckAgainst(before, after)
      case Some(code) => Err(MigrationRequired(code))
      case None => Ok(if before == after then Unchanged else Updated)
  }

  function Record(configs: Configs, call: Call): (Configs, Result<ManifestOutcome, StoreError>) {
    if call.candidate.None? then (configs, Err(InvalidManifest))
    else if call.disk.CannotRead? then (configs, Err(StoreFailed))
    else if call.id !in configs then (configs, Err(FieldNotConfigured))
    else
      match Agreement(configs[call.id], call.candidate.value)
      case Err(error) => (configs, Err(error))
      case Ok(outcome) =>
        var updated := configs[call.id := Some(Decodes(call.candidate.value))];
        match call.disk
        case WriteFails(replaced) => (if replaced then updated else configs, Err(StoreFailed))
        case _ => (updated, Ok(outcome))
  }

  function RecordAll(configs: Configs, calls: seq<Call>): Configs {
    if calls == [] then configs else RecordAll(Record(configs, calls[0]).0, calls[1..])
  }

  class FieldStore {
    var configs: Configs

    constructor (configs: Configs)
      ensures this.configs == configs
    {
      this.configs := configs;
    }

    /** Persists a reported manifest unless it disagrees with the recorded one; a refusal changes nothing. */
    method RecordManifest(id: string, candidate: Option<Manifest>, disk: Disk)
      returns (r: Result<ManifestOutcome, StoreError>)
      modifies this
      ensures (configs, r) == Record(old(configs), Call(id, candidate, disk))
      ensures r.Err? && r.error != StoreFailed ==> configs == old(configs)
      ensures candidate.None? ==> configs == old(configs)
      ensures candidate.Some? ==>
                configs == old(configs)
                || (id in old(configs) && Agreement(old(configs)[id], candidate.value).Ok?
                    && configs == old(configs)[id := Some(Decodes(candidate.value))])
      ensures r.Ok? ==> candidate.Some? && configs == old(configs)[id := Some(Decodes(candidate.value))]
    {
      if candidate.None? { return Err(InvalidManifest); }
      if disk.CannotRead? { return Err(StoreFailed); }
      if id !in configs { return Err(FieldNotConfigured); }
      var outcome := FirstSnapshot;
      if configs[id].Some? {
        if configs[id].value.Undecodable? { return Err(InvalidManifest); }
        var stored, current := SnapshotOf(configs[id].value.manifest), SnapshotOf(candidate.value);
        var disagreement := CheckAgainst(stored, current);
        if disagreement.Some? { return Err(MigrationRequired(disagreement.value)); }
        outcome := if stored == current then Unchanged else Updated;
      }
      if disk.WriteFails? {
        if disk.replaced { configs := configs[id := Some(Decodes(candidate.value))]; }
        return Err(StoreFailed);
      }
      configs := configs[id := Some(Decodes(candidate.value))];
      r := Ok(outcome);
    }
  }

  /** The manifest a configured Field has recorded, if it still decodes. */
  predicate Records(configs: Configs, id: string) {
    id in configs && configs[id].Some? && configs[id].value.Decodes?
  }

  function Recorded(configs: Configs, id: string): Manifest
    requires Records(configs, id)
  {
    configs[id].value.manifest
  }

  /** Over any calls and store failures, a recorded cursor format and every once-declared shape are there for good. */
  lemma {:induction false} RecordedDeclarationsPersist(configs: Configs, calls: seq<Call>, id: string)
    requires Records(configs, id)
    ensures Records(RecordAll(configs, calls), id)
    ensures Extends(SnapshotOf(Recorded(configs, id)), SnapshotOf(Recorded(RecordAll(configs, calls), id)))
  {
    hide SnapshotOf;
    if calls != [] {
      var next := Record(configs, calls[0]).0;
      assert Records(next, id) && Extends(SnapshotOf(Recorded(configs, id)), SnapshotOf(Recorded(next, id)));
      RecordedDeclarationsPersist(next, calls[1..], id);
    }
  }

  /** Growing the declarations of one stem never takes an accepted value away. */
  lemma AcceptanceIsMonotone(earlier: Index, later: Index, name: string, value: PropertyValue)
    requires earlier.fieldStem == later.fieldStem && earlier.registry == later.registry
    requires forall n :: n in earlier.declared ==> n in later.declared && later.declared[n] == earlier.declared[n]
    requires Check(earlier, name, value).None?
    ensures Check(later, name, value).None?
  {
  }

  function IndexOf(manifest: Manifest, registry: Registry): Index {
    Index(manifest.fieldStem, DeclaredMap(manifest.declaredProperties), registry)
  }

  /** A value some recorded manifest admits stays admitted under every manifest recorded later. */
  lemma AcceptedValuesStayAccepted(
      configs: Configs, calls: seq<Call>, id: string, registry: Registry, name: string, value: PropertyValue)
    requires Records(configs, id)
    requires Check(IndexOf(Recorded(configs, id), registry), name, value).None?
    ensures Records(RecordAll(configs, calls), id)
    ensures var latest := Recorded(RecordAll(configs, calls), id);
            latest.fieldStem == Recorded(configs, id).fieldStem ==>
              Check(IndexOf(latest, registry), name, value).None?
  {
    RecordedDeclarationsPersist(configs, calls, id);
    var latest := Recorded(RecordAll(configs, calls), id);
    if latest.fieldStem == Recorded(configs, id).fieldStem {
      AcceptanceIsMonotone(IndexOf(Recorded(configs, id), registry), IndexOf(latest, registry), name, value);
    }
  }
}
