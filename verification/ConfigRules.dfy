/**
 What a configuration document means to its registered consumers, and the edits that the store
 applies to it (config/src/service.rs). Diagnostics are reduced to success or refusal.
 */
module ConfigRules {
  import opened Wrappers
  import opened TomlTables
  import opened IniValues

  datatype IniField = IniField(key: string, path: Path, kind: IniKind)

  datatype IniSection = IniSection(name: string, fields: seq<IniField>)

  datatype Registration = Registration(defaults: Table, fixed: Table, ini: Option<IniSection>)

  type Registrations = map<string, Registration>

  predicate ValidName(name: string) {
    name != "" && '\0' !in name
  }

  // ---------- registrations ----------

  predicate ValidKind(kind: IniKind) {
    match kind
    case Range(min, max) => min <= max
    case Enum(values) => values != map[] && Unambiguous(kind)
    case _ => true
  }

  predicate ValidField(field: IniField) {
    && ValidName(field.key) && field.path != [] && ValidKind(field.kind)
    && forall part | part in field.path :: ValidName(part)
  }

  predicate ValidIni(ini: IniSection) {
    && ValidName(ini.name)
    && (forall i | 0 <= i < |ini.fields| :: ValidField(ini.fields[i]))
    && (forall i, j | 0 <= i < j < |ini.fields| :: !SameName(ini.fields[i].key, ini.fields[j].key))
    && (forall i, j | 0 <= i < j < |ini.fields| :: ini.fields[i].path != ini.fields[j].path)
  }

  predicate ValidRegistration(registration: Registration) {
    && (registration.ini.Some? ==> ValidIni(registration.ini.value))
    && Effective(map[], "defaults", registration).Some?
  }

  /** The names under which a section answers, in lower case. */
  function Aliases(section: string, registration: Registration): set<string> {
    {Lower(section)} + if registration.ini.Some? then {Lower(registration.ini.value.name)} else {}
  }

  ghost predicate Disjoint(registrations: Registrations) {
    forall s, t | s in registrations && t in registrations && s != t ::
      Aliases(s, registrations[s]) !! Aliases(t, registrations[t])
  }

  /** What registering one section at a time keeps. */
  ghost predicate ValidRegistrations(registrations: Registrations) {
    && (forall s | s in registrations :: ValidName(s) && ValidRegistration(registrations[s]))
    && Disjoint(registrations)
  }

  // ---------- effective values ----------

  /** The section's own table; an absent section is an empty one. */
  function TableAt(document: Table, section: string): Table {
    if section in document && document[section].Table? then document[section].table else map[]
  }

  predicate IsSection(document: Table, section: string) {
    section in document ==> document[section].Table?
  }

  /** Defaults, then the document, then the fixed values. */
  function Layers(document: Table, section: string, registration: Registration): Table {
    Merge(Merge(registration.defaults, TableAt(document, section)), registration.fixed)
  }

  predicate FieldsFit(values: Table, registration: Registration) {
    registration.ini.Some? ==>
      forall i | 0 <= i < |registration.ini.value.fields| ::
        var field := registration.ini.value.fields[i];
        PathValue(values, field.path).Some? ==> ToIni(field.kind, PathValue(values, field.path).value).Some?
  }

  /** The values a consumer reads, unless the section does not satisfy its registration. */
  function Effective(document: Table, section: string, registration: Registration): Option<Table> {
    var values := Layers(document, section, registration);
    if IsSection(document, section) && TypesMatch(values, registration.defaults) && FieldsFit(values, registration)
    then Some(values) else None
  }

  /** No other top-level key answers to one of the section's names. */
  predicate AliasesClear(document: Table, section: string, registration: Registration) {
    forall name | name in document && name != section :: Lower(name) !in Aliases(section, registration)
  }

  predicate SectionSound(document: Table, section: string, registration: Registration) {
    AliasesClear(document, section, registration) && Effective(document, section, registration).Some?
  }

  /** Every registered section of the document satisfies its registration. */
  ghost predicate Sound(document: Table, registrations: Registrations) {
    forall s | s in registrations :: SectionSound(document, s, registrations[s])
  }

  // ---------- normalizing a changed document ----------

  /** The sections whose fixed values an update writes. */
  function FixedSections(registrations: Registrations): set<string> {
    set s | s in registrations && registrations[s].fixed != map[]
  }

  /** Fixed values written into every registered section that has any. */
  function Normalized(document: Table, registrations: Registrations): Table {
    map s | s in document.Keys + FixedSections(registrations) ::
      if s in FixedSections(registrations) then Table(Merge(TableAt(document, s), registrations[s].fixed))
        else document[s]
  }

  /** What an update demands of a changed document before it is saved. */
  ghost predicate Admissible(document: Table, registrations: Registrations) {
    forall s | s in registrations ::
      && AliasesClear(document, s, registrations[s])
      && IsSection(document, s)
      && Effective(Normalized(document, registrations), s, registrations[s]).Some?
  }

  lemma {:induction false} NormalizedSection(document: Table, registrations: Registrations, section: string)
    requires section in registrations && IsSection(document, section)
    ensures IsSection(Normalized(document, registrations), section)
    ensures TableAt(Normalized(document, registrations), section)
            == Merge(TableAt(document, section), registrations[section].fixed)
  {
    MergeNothing(TableAt(document, section));
  }

  /** A document that is saved is sound: normalizing brings in only names that alias nothing else. */
  lemma {:induction false} AdmissibleIsSound(document: Table, registrations: Registrations)
    requires Disjoint(registrations) && Admissible(document, registrations)
    ensures Sound(Normalized(document, registrations), registrations)
  {
    forall s | s in registrations
      ensures AliasesClear(Normalized(document, registrations), s, registrations[s])
    {
      forall name | name in Normalized(document, registrations) && name != s
        ensures Lower(name) !in Aliases(s, registrations[s])
      {
        if name !in document {
          assert Lower(name) in Aliases(name, registrations[name]);
        }
      }
    }
  }

  /** Effective values after an update: the fixed layer has gone into the document and stays on top. */
  lemma {:induction false} EffectiveAfterUpdate(document: Table, registrations: Registrations, section: string)
    requires section in registrations && IsSection(document, section)
    ensures Layers(Normalized(document, registrations), section, registrations[section])
            == Merge(registrations[section].defaults, Merge(TableAt(document, section), registrations[section].fixed))
  {
    NormalizedSection(document, registrations, section);
    TopAbsorbed(registrations[section].defaults, TableAt(document, section), registrations[section].fixed);
  }

  /**
   An update keeps the effective values of a section it does not edit exactly when the document
   hides no default table behind a plain value where the fixed layer has a table again.
   */
  lemma {:induction false} UneditedSectionKept(document: Table, registrations: Registrations, section: string)
    requires section in registrations && IsSection(document, section)
    ensures Layers(Normalized(document, registrations), section, registrations[section])
            == Layers(document, section, registrations[section])
            <==> Layered(registrations[section].defaults, TableAt(document, section), registrations[section].fixed)
  {
    EffectiveAfterUpdate(document, registrations, section);
    MergeAssociative(registrations[section].defaults, TableAt(document, section), registrations[section].fixed);
  }

  /** The exception is real: a valid section whose effective values an unrelated update changes. */
  lemma {:induction false} UneditedSectionMayChange()
    ensures exists document: Table, registrations: Registrations, s ::
              && s in registrations && ValidRegistration(registrations[s])
              && SectionSound(document, s, registrations[s])
              && Admissible(document, registrations)
              && Layers(Normalized(document, registrations), s, registrations[s])
                 != Layers(document, s, registrations[s])
  {
    hide Merge, TypesMatch, ExampleDefaults, ExampleFixed, Normalized;
    var registration := Registration(ExampleDefaults(), ExampleFixed(), None);
    var registrations: Registrations := map["s" := registration];
    var values: Table := map["w" := Integer(5)];
    var document: Table := map["s" := Table(values)];
    ExampleLayers();
    assert TableAt(document, "s") == values;
    EffectiveAfterUpdate(document, registrations, "s");
    NormalizedSection(document, registrations, "s");
    MergeNothing(ExampleDefaults());
    assert TableAt(map[], "defaults") == map[];
    assert ValidRegistration(registration);
    assert SectionSound(document, "s", registration);
    assert Admissible(document, registrations);
  }

  function ExampleDefaults(): Table {
    map["w" := Table(map["a" := Integer(1), "b" := Integer(2)])]
  }

  function ExampleFixed(): Table {
    map["w" := Table(map["b" := Integer(3)])]
  }

  lemma {:induction false} ExampleLayers()
    ensures Merge(Merge(ExampleDefaults(), map["w" := Integer(5)]), ExampleFixed()) == ExampleFixed()
    ensures Merge(map["w" := Integer(5)], ExampleFixed()) == ExampleFixed()
    ensures Merge(ExampleDefaults(), ExampleFixed()) != ExampleFixed()
    ensures TypesMatch(ExampleFixed(), ExampleDefaults())
    ensures TypesMatch(Merge(ExampleDefaults(), ExampleFixed()), ExampleDefaults())
  {
    ExamplePlain();
    ExampleMerged();
    ExampleTypes();
    hide Merge, TypesMatch;
    assert "a" in Merge(ExampleDefaults(), ExampleFixed())["w"].table && "a" !in ExampleFixed()["w"].table;
  }

  lemma {:induction false} ExamplePlain()
    ensures Merge(ExampleDefaults(), map["w" := Integer(5)]) == map["w" := Integer(5)]
    ensures Merge(map["w" := Integer(5)], ExampleFixed()) == ExampleFixed()
  {
  }

  lemma {:induction false} ExampleTypes()
    ensures TypesMatch(ExampleFixed(), ExampleDefaults())
    ensures TypesMatch(Merge(ExampleDefaults(), ExampleFixed()), ExampleDefaults())
  {
    ExampleMerged();
    hide Merge;
  }

  lemma {:induction false} ExampleMerged()
    ensures Merge(ExampleDefaults(), ExampleFixed()) == map["w" := Table(map["a" := Integer(1), "b" := Integer(3)])]
  {
    var merged := Merge(ExampleDefaults(), ExampleFixed());
    var inner := Merge(ExampleDefaults()["w"].table, ExampleFixed()["w"].table);
    assert inner == map["a" := Integer(1), "b" := Integer(3)];
    assert merged == map["w" := Table(inner)];
  }

  // ---------- writing TOML ----------

  /** The update that `write` makes. */
  function WriteChange(section: string, patch: Table, document: Table): Option<Table> {
    if !IsSection(document, section) then None
    else Some(document[section := Table(Merge(TableAt(document, section), patch))])
  }

  lemma {:induction false} WriteEdits(section: string, patch: Table, document: Table, registrations: Registrations)
    requires IsSection(document, section) && section in registrations
    ensures var changed := WriteChange(section, patch, document).value;
            Layers(Normalized(changed, registrations), section, registrations[section])
            == Merge(registrations[section].defaults,
                     Merge(Merge(TableAt(document, section), patch), registrations[section].fixed))
  {
    EffectiveAfterUpdate(WriteChange(section, patch, document).value, registrations, section);
  }

  /**
   A write reads back as defaults, then the stored section, then the patch, then the fixed values,
   exactly when those four layers are stacked (`TomlTables.Stacked`).
   */
  lemma {:induction false} WriteReadsBack(section: string, patch: Table, document: Table, registrations: Registrations)
    requires IsSection(document, section) && section in registrations
    ensures var changed := WriteChange(section, patch, document).value;
            var registration := registrations[section];
            Layers(Normalized(changed, registrations), section, registration)
            == Merge(Merge(Merge(registration.defaults, TableAt(document, section)), patch), registration.fixed)
            <==> Stacked(registration.defaults, TableAt(document, section), patch, registration.fixed)
  {
    WriteEdits(section, patch, document, registrations);
    StackedIff(registrations[section].defaults, TableAt(document, section), patch, registrations[section].fixed);
  }

  /** A patch and a stored section shaped like the defaults always read back that way. */
  lemma {:induction false} WriteReadsBackWhenShapesAgree(section: string, patch: Table, document: Table,
                                                         registrations: Registrations)
    requires IsSection(document, section) && section in registrations
    requires SameShape(registrations[section].defaults, TableAt(document, section))
    requires SameShape(registrations[section].defaults, patch)
    ensures var changed := WriteChange(section, patch, document).value;
            var registration := registrations[section];
            Layers(Normalized(changed, registrations), section, registration)
            == Merge(Merge(Merge(registration.defaults, TableAt(document, section)), patch), registration.fixed)
  {
    SameShapeIsStacked(registrations[section].defaults, TableAt(document, section), patch,
                       registrations[section].fixed);
    WriteReadsBack(section, patch, document, registrations);
  }

  /** The exception is real: an admissible write to a valid section that reads back otherwise. */
  lemma {:induction false} WriteMayReadBackOtherwise()
    ensures exists document: Table, registrations: Registrations, s, patch: Table ::
              && s in registrations && ValidRegistration(registrations[s]) && Sound(document, registrations)
              && WriteChange(s, patch, document).Some?
              && Admissible(WriteChange(s, patch, document).value, registrations)
              && Layers(Normalized(WriteChange(s, patch, document).value, registrations), s, registrations[s])
                 != Merge(Merge(Merge(registrations[s].defaults, TableAt(document, s)), patch), registrations[s].fixed)
  {
    hide Merge, TypesMatch, ExampleDefaults, ExampleFixed, Normalized;
    var registration := Registration(ExampleDefaults(), ExampleFixed(), None);
    var registrations: Registrations := map["s" := registration];
    var patch: Table := map["w" := Integer(5)];
    var document: Table := map[];
    var changed: Table := map["s" := Table(patch)];
    MergeNothing(patch);
    MergeNothing(ExampleDefaults());
    assert WriteChange("s", patch, document) == Some(changed);
    assert TableAt(changed, "s") == patch && TableAt(map[], "defaults") == map[] && TableAt(map[], "s") == map[];
    ExampleLayers();
    EffectiveAfterUpdate(changed, registrations, "s");
    NormalizedSection(changed, registrations, "s");
    assert ValidRegistration(registration);
    assert SectionSound(document, "s", registration);
    assert Sound(document, registrations);
    assert Admissible(changed, registrations);
  }
}
