/** What a manifest's declarations and the shared vocabulary say about a property, told entry by entry. */
module Declarations {
  import opened Wrappers
  import opened Codes
  import opened Manifests

  // ---- What a property value must be ----

  /** The value's own form: how many values it is, and what each is. */
  predicate HasForm(value: PropertyValue, kind: ScalarKind, cardinality: Cardinality) {
    match value
    case Text(_) => cardinality == Scalar && kind in {TextKind, DateKind, DatetimeKind}
    case Number(_) => cardinality == Scalar && kind == NumberKind
    case Boolean(_) => cardinality == Scalar && kind == BoolKind
    case TextList(_) => cardinality == List && kind in {TextKind, DateKind, DatetimeKind}
    case NumberList(_) => cardinality == List && kind == NumberKind
    case BooleanList(_) => cardinality == List && kind == BoolKind
  }

  predicate SomeText(value: PropertyValue, test: string -> bool) {
    match value
    case Text(t) => test(t)
    case TextList(ts) => exists i :: 0 <= i < |ts| && test(ts[i])
    case _ => false
  }

  predicate Suits(shape: PropertyShape, value: PropertyValue) {
    && HasForm(value, shape.valueType, shape.cardinality)
    && (shape.valueType == DateKind ==> !SomeText(value, t => !IsDate(t)))
    && (shape.valueType == DatetimeKind ==> !SomeText(value, t => !IsDatetime(t)))
  }

  /** Why a value does not suit a shape. */
  predicate Misfit(shape: PropertyShape, value: PropertyValue, code: RejectionCode) {
    match code
    case RecordPropertyTypeMismatch => !HasForm(value, shape.valueType, shape.cardinality)
    case RecordInvalidDate =>
      HasForm(value, shape.valueType, shape.cardinality) && shape.valueType == DateKind
      && SomeText(value, t => !IsDate(t))
    case RecordInvalidDatetime =>
      HasForm(value, shape.valueType, shape.cardinality) && shape.valueType == DatetimeKind
      && SomeText(value, t => !IsDatetime(t))
    case _ => false
  }

  lemma AcceptsExactly(shape: PropertyShape, value: PropertyValue)
    ensures Accepts(shape, value).None? <==> Suits(shape, value)
    ensures forall code :: Accepts(shape, value) == Some(code) <==> Misfit(shape, value, code)
  {
    hide IsDate, IsDatetime;
    if value.TextList? {
      assert (exists i :: 0 <= i < |value.texts| && !IsDate(value.texts[i]))
             <==> !(forall t | t in value.texts :: IsDate(t));
      assert (exists i :: 0 <= i < |value.texts| && !IsDatetime(value.texts[i]))
             <==> !(forall t | t in value.texts :: IsDatetime(t));
    }
  }

  // ---- Which properties a record may carry ----

  /** The name is a stem, an underscore and something after it. */
  predicate Carries(name: string, stem: string) {
    |name| > |stem| + 1 && name[..|stem|] == stem && name[|stem|] == '_'
  }

  /** The `i`th registered stem is the first the name carries. */
  predicate StemAt(stems: seq<string>, name: string, i: nat) {
    i < |stems| && Carries(name, stems[i]) && forall j :: 0 <= j < i ==> !Carries(name, stems[j])
  }

  predicate NoStem(stems: seq<string>, name: string) { forall i :: 0 <= i < |stems| ==> !Carries(name, stems[i]) }

  /** The manifest's last declaration of a name gives it this shape. */
  predicate Declares(manifest: Manifest, name: string, shape: PropertyShape) {
    var entries := manifest.declaredProperties;
    exists i :: 0 <= i < |entries| && entries[i] == DeclaredProperty(name, shape)
                && forall j :: i < j < |entries| ==> entries[j].name != name
  }

  predicate DeclaresNone(manifest: Manifest, name: string) {
    forall i :: 0 <= i < |manifest.declaredProperties| ==> manifest.declaredProperties[i].name != name
  }

  /** A name of the shared vocabulary that a Field may write, and its approved shape. */
  predicate Vocabulary(registry: Registry, name: string, shape: PropertyShape) {
    && name in registry.types && name !in registry.derivedOnly
    && shape == match registry.types[name]
                case ScalarType(kind) => PropertyShape(kind, Scalar, None)
                case ListType(kind, semantics) => PropertyShape(kind, List, Some(semantics))
  }

  /** The first registered stem a name carries is, or is not, the Field's own. */
  ghost predicate OwnName(registry: Registry, fieldStem: string, name: string) {
    exists i: nat :: StemAt(registry.stems, name, i) && registry.stems[i] == fieldStem
  }

  ghost predicate ForeignName(registry: Registry, fieldStem: string, name: string) {
    exists i: nat :: StemAt(registry.stems, name, i) && registry.stems[i] != fieldStem
  }

  /** The approved shape of a name: the Field's own as it declared it, or the vocabulary's. */
  ghost predicate Approved(manifest: Manifest, registry: Registry, name: string, shape: PropertyShape) {
    || (OwnName(registry, manifest.fieldStem, name) && Declares(manifest, name, shape))
    || (NoStem(registry.stems, name) && Vocabulary(registry, name, shape))
  }

  ghost predicate Admitted(manifest: Manifest, registry: Registry, name: string, value: PropertyValue) {
    exists shape :: Approved(manifest, registry, name, shape) && Suits(shape, value)
  }

  /** Why a property is refused. */
  ghost predicate Inadmissible(manifest: Manifest, registry: Registry, name: string, value: PropertyValue,
                               code: RejectionCode)
  {
    || (code == RecordForeignPrefix && ForeignName(registry, manifest.fieldStem, name))
    || (code == RecordUndeclaredProperty
        && OwnName(registry, manifest.fieldStem, name) && DeclaresNone(manifest, name))
    || (code == RecordUnknownProperty
        && NoStem(registry.stems, name) && (name !in registry.types || name in registry.derivedOnly))
    || (exists shape :: Approved(manifest, registry, name, shape) && Misfit(shape, value, code))
  }

  lemma CarriesPrefix(name: string, stem: string)
    ensures Carries(name, stem) <==> stem + "_" <= name && |name| > |stem| + 1
  {
    if stem + "_" <= name && |name| > |stem| + 1 {
      assert name[..|stem|] == (stem + "_")[..|stem|] == stem;
      assert name[|stem|] == (stem + "_")[|stem|];
    }
    if Carries(name, stem) { assert name[..|stem| + 1] == stem + "_"; }
  }

  lemma {:induction false} PrefixForExactly(stems: seq<string>, name: string)
    ensures match PrefixFor(stems, name)
            case None => NoStem(stems, name)
            case Some(stem) => exists i: nat :: StemAt(stems, name, i) && stems[i] == stem
  {
    hide Carries;
    if stems != [] {
      CarriesPrefix(name, stems[0]);
      PrefixForExactly(stems[1..], name);
      match PrefixFor(stems, name)
      case None => assert forall i :: 1 <= i < |stems| ==> stems[i] == stems[1..][i - 1];
      case Some(stem) =>
        if Carries(name, stems[0]) {
          assert StemAt(stems, name, 0);
        } else {
          var i: nat :| StemAt(stems[1..], name, i) && stems[1..][i] == stem;
          forall j | 0 <= j < i + 1 ensures !Carries(name, stems[j]) {
            if j > 0 { assert stems[j] == stems[1..][j - 1]; }
          }
          assert StemAt(stems, name, i + 1);
        }
    }
  }

  lemma StemUnique(stems: seq<string>, name: string, i: nat, j: nat)
    requires StemAt(stems, name, i)
    ensures StemAt(stems, name, j) ==> i == j
    ensures !NoStem(stems, name)
  {
  }

  lemma {:induction false} DeclaredMapExactly(entries: seq<DeclaredProperty>, name: string)
    ensures name in DeclaredMap(entries) ==>
              exists i :: 0 <= i < |entries| && entries[i] == DeclaredProperty(name, DeclaredMap(entries)[name])
                          && forall j :: i < j < |entries| ==> entries[j].name != name
    ensures name !in DeclaredMap(entries) ==> forall i :: 0 <= i < |entries| ==> entries[i].name != name
  {
    if entries != [] {
      var n := |entries| - 1;
      var front := entries[..n];
      DeclaredMapExactly(front, name);
      if entries[n].name == name {
        assert entries[n] == DeclaredProperty(name, DeclaredMap(entries)[name]);
      } else if name in DeclaredMap(front) {
        var i :| 0 <= i < n && front[i] == DeclaredProperty(name, DeclaredMap(front)[name])
                 && forall j :: i < j < n ==> front[j].name != name;
        assert entries[i] == DeclaredProperty(name, DeclaredMap(entries)[name]);
        forall j | i < j < |entries| ensures entries[j].name != name { assert j < n ==> entries[j] == front[j]; }
      } else {
        forall i | 0 <= i < |entries| ensures entries[i].name != name { assert i < n ==> entries[i] == front[i]; }
      }
    }
  }

  lemma DeclaresExactly(manifest: Manifest, name: string)
    ensures var declared := DeclaredMap(manifest.declaredProperties);
            (forall shape :: Declares(manifest, name, shape) <==> name in declared && declared[name] == shape)
            && (DeclaresNone(manifest, name) <==> name !in declared)
  {
    DeclaredMapExactly(manifest.declaredProperties, name);
    hide DeclaredMap;
    var entries := manifest.declaredProperties;
    var declared := DeclaredMap(entries);
    if name in declared { assert Declares(manifest, name, declared[name]); }
    forall shape | Declares(manifest, name, shape) ensures name in declared && declared[name] == shape {
      var i :| 0 <= i < |entries| && entries[i] == DeclaredProperty(name, shape)
               && forall j :: i < j < |entries| ==> entries[j].name != name;
      assert name in declared;
      var k :| 0 <= k < |entries| && entries[k] == DeclaredProperty(name, declared[name])
               && forall j :: k < j < |entries| ==> entries[j].name != name;
      assert i == k;
    }
  }

  lemma NameIsOneOf(registry: Registry, fieldStem: string, name: string)
    ensures var carried := PrefixFor(registry.stems, name);
            (NoStem(registry.stems, name) <==> carried.None?)
            && (OwnName(registry, fieldStem, name) <==> carried == Some(fieldStem))
            && (ForeignName(registry, fieldStem, name) <==> carried.Some? && carried.value != fieldStem)
  {
    hide PrefixFor, Carries;
    var stems := registry.stems;
    PrefixForExactly(stems, name);
    match PrefixFor(stems, name)
    case None => assert forall i: nat :: !StemAt(stems, name, i);
    case Some(stem) =>
      var i: nat :| StemAt(stems, name, i) && stems[i] == stem;
      forall j: nat | StemAt(stems, name, j) ensures j == i { StemUnique(stems, name, i, j); }
      StemUnique(stems, name, i, i);
  }

  /** The declaration check is exactly this: a refusal is one of the reasons, and none stands on an admitted value. */
  lemma CheckExactly(manifest: Manifest, registry: Registry, name: string, value: PropertyValue)
    ensures var r := Check(IndexOf(manifest, registry), name, value);
            (r.None? <==> Admitted(manifest, registry, name, value))
            && forall code :: r == Some(code) <==> Inadmissible(manifest, registry, name, value, code)
  {
    NameIsOneOf(registry, manifest.fieldStem, name);
    DeclaresExactly(manifest, name);
    hide PrefixFor, DeclaredMap, OwnName, ForeignName, NoStem, Declares, DeclaresNone, Accepts, Misfit, Suits;
    var declared := DeclaredMap(manifest.declaredProperties);
    if OwnName(registry, manifest.fieldStem, name) {
      if name in declared { ApprovedDecides(manifest, registry, name, value, declared[name]); }
    } else if NoStem(registry.stems, name) && name in registry.types && name !in registry.derivedOnly {
      ApprovedDecides(manifest, registry, name, value, ShapeOf(registry.types[name]));
    }
  }

  lemma ApprovedDecides(manifest: Manifest, registry: Registry, name: string, value: PropertyValue,
                        shape: PropertyShape)
    requires Approved(manifest, registry, name, shape)
    requires forall other :: Approved(manifest, registry, name, other) ==> other == shape
    ensures Accepts(shape, value).None? <==> Admitted(manifest, registry, name, value)
    ensures forall code :: Accepts(shape, value) == Some(code)
                           <==> exists s :: Approved(manifest, registry, name, s) && Misfit(s, value, code)
  {
    hide Accepts, Suits, Misfit, Approved;
    AcceptsExactly(shape, value);
  }

  // ---- Which manifests are their own ----

  predicate HasPrefix(manifest: Manifest, name: string) {
    && manifest.propertyPrefix.Some? && |manifest.propertyPrefix.value| <= |name|
    && name[..|manifest.propertyPrefix.value|] == manifest.propertyPrefix.value
  }

  /** The `i`th declaration carries the manifest's prefix and a name no earlier one has. */
  predicate Owned(manifest: Manifest, i: nat)
    requires i < |manifest.declaredProperties|
  {
    var entries := manifest.declaredProperties;
    HasPrefix(manifest, entries[i].name) && forall j :: 0 <= j < i ==> entries[j].name != entries[i].name
  }

  /** Why the `i`th declaration is not the manifest's own. */
  predicate Disowned(manifest: Manifest, i: nat, code: RejectionCode)
    requires i < |manifest.declaredProperties|
  {
    match code
    case RecordUndeclaredProperty => manifest.propertyPrefix.None?
    case RecordForeignPrefix =>
      manifest.propertyPrefix.Some? && !HasPrefix(manifest, manifest.declaredProperties[i].name)
    case RecordPropertyTypeMismatch =>
      HasPrefix(manifest, manifest.declaredProperties[i].name) && !Owned(manifest, i)
    case _ => false
  }

  lemma DefectExactly(manifest: Manifest, i: nat)
    requires i < |manifest.declaredProperties|
    ensures DefectAt(manifest, i).None? <==> Owned(manifest, i)
    ensures forall code :: DefectAt(manifest, i) == Some(code) <==> Disowned(manifest, i, code)
  {
  }

  /** The first declaration a manifest does not own, and why it does not. */
  predicate FirstDisowned(manifest: Manifest, i: nat, code: RejectionCode) {
    && i < |manifest.declaredProperties| && Disowned(manifest, i, code)
    && forall j :: 0 <= j < i ==> Owned(manifest, j)
  }

  /** A manifest starts a session exactly when it owns all it declares; the first it does not own decides the code. */
  lemma OwnsExactly(manifest: Manifest, code: RejectionCode)
    ensures OwnsItsDeclarations(manifest) <==> forall i :: 0 <= i < |manifest.declaredProperties| ==> Owned(manifest, i)
    ensures FirstDefect(manifest, code) <==> exists i: nat :: FirstDisowned(manifest, i, code)
  {
    hide DefectAt, Owned, Disowned;
    forall i | 0 <= i < |manifest.declaredProperties|
      ensures DefectAt(manifest, i).None? <==> Owned(manifest, i)
      ensures DefectAt(manifest, i) == Some(code) <==> Disowned(manifest, i, code)
    {
      DefectExactly(manifest, i);
    }
    if FirstDefect(manifest, code) {
      var i :| 0 <= i < |manifest.declaredProperties| && DefectAt(manifest, i) == Some(code)
               && forall j :: 0 <= j < i ==> DefectAt(manifest, j).None?;
      assert FirstDisowned(manifest, i, code);
    }
    if i: nat :| FirstDisowned(manifest, i, code) {
      assert DefectAt(manifest, i) == Some(code);
    }
  }

  // ---- How a stored manifest may be followed ----

  /** The later manifest resumes the same cursors and still declares everything the earlier one did, alike. */
  ghost predicate Follows(earlier: Manifest, later: Manifest) {
    && earlier.cursorFormatVersion == later.cursorFormatVersion
    && forall name, shape :: Declares(earlier, name, shape) ==> Declares(later, name, shape)
  }

  lemma ExtendsExactly(earlier: Manifest, later: Manifest)
    ensures Extends(SnapshotOf(earlier), SnapshotOf(later)) <==> Follows(earlier, later)
  {
    hide Declares, DeclaredMap;
    var a, b := SnapshotOf(earlier), SnapshotOf(later);
    if Extends(a, b) {
      forall name, shape | Declares(earlier, name, shape) ensures Declares(later, name, shape) {
        DeclaresExactly(earlier, name);
        DeclaresExactly(later, name);
      }
    }
    if Follows(earlier, later) {
      forall name | name in a.declared ensures name in b.declared && b.declared[name] == a.declared[name] {
        DeclaresExactly(earlier, name);
        DeclaresExactly(later, name);
        assert Declares(earlier, name, a.declared[name]);
      }
    }
  }

  lemma SameSnapshot(a: ManifestSnapshot, b: ManifestSnapshot)
    ensures a == b <==> Extends(a, b) && Extends(b, a)
  {
    if Extends(a, b) && Extends(b, a) {
      assert a.declared.Keys == b.declared.Keys;
      assert a.declared == b.declared;
    }
  }

  /** What the store answers to a decoded manifest, by what it has recorded. */
  lemma AgreementExactly(recorded: Option<Stored>, candidate: Manifest)
    ensures var r := Agreement(recorded, candidate);
            match recorded
            case None => r == Ok(FirstSnapshot)
            case Some(Undecodable) => r == Err(InvalidManifest)
            case Some(Decodes(stored)) =>
              if stored.cursorFormatVersion != candidate.cursorFormatVersion
              then r == Err(MigrationRequired(ManifestCursorFormatChanged))
              else if !Follows(stored, candidate) then r == Err(MigrationRequired(ManifestPropertyTypeChanged))
              else r == Ok(if Follows(candidate, stored) then Unchanged else Updated)
  {
    if recorded.Some? && recorded.value.Decodes? {
      var stored := recorded.value.manifest;
      ExtendsExactly(stored, candidate);
      ExtendsExactly(candidate, stored);
      SameSnapshot(SnapshotOf(stored), SnapshotOf(candidate));
      AgreementIsExtension(SnapshotOf(stored), SnapshotOf(candidate));
      hide Declares, DeclaredMap;
    }
  }
}
