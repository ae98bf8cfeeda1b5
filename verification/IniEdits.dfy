/**
 The INI view of the document: which section and field a name reaches, and the edits made
 through it (config/src/service.rs: `ini_registration`, `matching_key`, `set_value`, `remove_key`,
 `remove_section`, `value`).
 */
module IniEdits {
  import opened Wrappers
  import opened TomlTables
  import opened IniValues
  import opened ConfigRules

  // ---------- names ----------

  /** Code point order, in which a table's keys are visited. */
  predicate Before(a: string, b: string) {
    if a == "" then true
    else if b == "" then false
    else if a[0] != b[0] then a[0] < b[0]
    else Before(a[1..], b[1..])
  }

  lemma {:induction false} BeforeTotal(a: string, b: string)
    ensures Before(a, b) || Before(b, a)
    ensures Before(a, b) && Before(b, a) ==> a == b
  {
    if a != "" && b != "" && a[0] == b[0] {
      BeforeTotal(a[1..], b[1..]);
      assert a == [a[0]] + a[1..] && b == [b[0]] + b[1..];
    }
  }

  lemma {:induction false} BeforeTransitive(a: string, b: string, c: string)
    requires Before(a, b) && Before(b, c)
    ensures Before(a, c)
  {
    if a != "" && b != "" && c != "" && a[0] == b[0] == c[0] {
      BeforeTransitive(a[1..], b[1..], c[1..]);
    }
  }

  predicate First(names: set<string>, name: string) {
    name in names && forall other | other in names :: Before(name, other)
  }

  lemma {:induction false} FirstExists(names: set<string>)
    requires names != {}
    ensures exists name :: First(names, name)
    decreases |names|
  {
    var one :| one in names;
    var others := names - {one};
    if others == {} {
      assert names == {one};
      BeforeTotal(one, one);
      assert First(names, one);
    } else {
      FirstExists(others);
      var first :| First(others, first);
      BeforeTotal(one, first);
      BeforeTotal(one, one);
      if Before(one, first) {
        forall other | other in others ensures Before(one, other) {
          BeforeTransitive(one, first, other);
        }
        assert First(names, one);
      } else {
        assert First(names, first);
      }
    }
  }

  /** The first key, in the table's order, that differs from `key` at most in ASCII case. */
  function MatchingKey(table: Table, key: string): (found: Option<string>)
    ensures found.Some? ==> First((set name | name in table && SameName(name, key)), found.value)
    ensures found.None? <==> forall name | name in table :: !SameName(name, key)
  {
    var names := set name | name in table && SameName(name, key);
    if names == {} then
      assert forall name | name in table :: SameName(name, key) ==> name in names;
      None
    else
      FirstExists(names);
      assert forall m, n | First(names, m) && First(names, n) :: m == n by {
        forall m, n | First(names, m) && First(names, n) ensures m == n {
          BeforeTotal(m, n);
        }
      }
      var name :| First(names, name);
      Some(name)
  }

  /** How a name of the INI view relates to the registrations. */
  datatype Exposure = Exposed(section: string) | Hidden | Free

  predicate Exposes(registration: Registration, name: string) {
    registration.ini.Some? && SameName(registration.ini.value.name, name)
  }

  function ExposureOf(registrations: Registrations, name: string): (exposure: Exposure)
    requires Disjoint(registrations)
    ensures exposure.Exposed? ==> exposure.section in registrations && Exposes(registrations[exposure.section], name)
    ensures exposure.Hidden? <==> && (exists s :: s in registrations && SameName(s, name))
                                  && forall s | s in registrations :: !Exposes(registrations[s], name)
    ensures exposure.Free? ==> forall s | s in registrations :: Lower(name) !in Aliases(s, registrations[s])
  {
    assert forall s, t |
        s in registrations && t in registrations && Exposes(registrations[s], name) && Exposes(registrations[t], name)
        :: s == t by {
      forall s, t |
        s in registrations && t in registrations && Exposes(registrations[s], name) && Exposes(registrations[t], name)
        ensures s == t
      {
        assert Lower(name) in Aliases(s, registrations[s]) && Lower(name) in Aliases(t, registrations[t]);
      }
    }
    if section :| section in registrations && Exposes(registrations[section], name) then Exposed(section)
    else if exists section :: section in registrations && SameName(section, name) then Hidden
    else Free
  }

  /** Names that differ only in ASCII case reach the same section. */
  lemma {:induction false} ExposureIgnoresCase(registrations: Registrations, name: string, other: string)
    requires Disjoint(registrations) && SameName(name, other)
    ensures ExposureOf(registrations, name) == ExposureOf(registrations, other)
  {
  }

  function FieldIn(fields: seq<IniField>, key: string): (found: Option<IniField>)
    ensures found.Some? ==> found.value in fields && SameName(found.value.key, key)
    ensures found.None? <==> forall f | f in fields :: !SameName(f.key, key)
  {
    if fields == [] then None
    else if SameName(fields[0].key, key) then Some(fields[0])
    else FieldIn(fields[1..], key)
  }

  function FieldOf(registration: Registration, key: string): (found: Option<IniField>)
    ensures found.Some? ==> registration.ini.Some? && found.value in registration.ini.value.fields
  {
    if registration.ini.None? then None else FieldIn(registration.ini.value.fields, key)
  }

  lemma {:induction false} FieldIgnoresCase(fields: seq<IniField>, key: string, other: string)
    requires SameName(key, other)
    ensures FieldIn(fields, key) == FieldIn(fields, other)
  {
    if fields != [] {
      FieldIgnoresCase(fields[1..], key, other);
    }
  }

  /** Every mapped field is reached by its key, in any ASCII case, and is the only one at its path. */
  lemma {:induction false} FieldIsReached(registration: Registration, i: nat, key: string)
    requires ValidRegistration(registration) && registration.ini.Some? && i < |registration.ini.value.fields|
    requires SameName(registration.ini.value.fields[i].key, key)
    ensures FieldOf(registration, key) == Some(registration.ini.value.fields[i])
    ensures forall field | field in registration.ini.value.fields ::
              field.path == registration.ini.value.fields[i].path ==> field == registration.ini.value.fields[i]
  {
    hide SameName, Effective;
    var fields := registration.ini.value.fields;
    var found := FieldOf(registration, key);
    assert fields[i] in fields;
    var j :| 0 <= j < |fields| && fields[j] == found.value;
    SameNameIsSymmetric(fields[i].key, fields[j].key, key);
    forall field | field in fields && field.path == fields[i].path ensures field == fields[i] {
      var n :| 0 <= n < |fields| && fields[n] == field;
    }
  }

  lemma {:induction false} SameNameIsSymmetric(a: string, b: string, key: string)
    requires SameName(a, key) && SameName(b, key)
    ensures SameName(a, b) && SameName(b, a)
  {
  }

  /** Keys that belong to the registration even where no field maps them. */
  predicate Reserved(registration: Registration, key: string) {
    || (exists name :: name in registration.defaults && SameName(name, key))
    || (exists name :: name in registration.fixed && SameName(name, key))
    || (registration.ini.Some?
        && exists i :: 0 <= i < |registration.ini.value.fields|
             && (|| SameName(registration.ini.value.fields[i].key, key)
                 || (registration.ini.value.fields[i].path != []
                     && SameName(registration.ini.value.fields[i].path[0], key))))
  }

  // ---------- edits ----------

  predicate AllStrings(table: Table) {
    forall k | k in table :: table[k].String?
  }

  /** The table an edit works on; unregistered sections must hold strings only. */
  function EditedTable(document: Table, section: string, registered: bool): Option<Table> {
    if !IsSection(document, section) then None
    else if !registered && !AllStrings(TableAt(document, section)) then None
    else Some(TableAt(document, section))
  }

  /** The top-level key an edit addresses: a registered section, or the key that matches the name. */
  function EditedSection(document: Table, section: string, registered: bool): string {
    if registered then section
    else match MatchingKey(document, section) case Some(name) => name case None => section
  }

  /** `set_value` through a field's path, or under the key itself. */
  function SetChange(name: string, registered: bool, field: Option<IniField>, key: string, value: Value,
                     document: Table)
    : Option<Table> {
    var section := EditedSection(document, name, registered);
    match EditedTable(document, section, registered)
    case None => None
    case Some(table) =>
      match field
      case Some(f) =>
        (match SetPath(table, f.path, value)
         case None => None
         case Some(edited) => Some(document[section := Table(edited)]))
      case None =>
        var existing := match MatchingKey(table, key) case Some(k) => k case None => key;
        Some(document[section := Table(table[existing := value])])
  }

  function RemoveKeyChange(name: string, registered: bool, field: Option<IniField>, key: string,
                           document: Table): Option<Table> {
    var section := EditedSection(document, name, registered);
    if section !in document then Some(document)
    else
      match EditedTable(document, section, registered)
      case None => None
      case Some(table) =>
        match field
        case Some(f) =>
          (match RemovePath(table, f.path)
           case None => None
           case Some(edited) => Some(document[section := Table(edited)]))
        case None =>
          match MatchingKey(table, key)
          case None => Some(document)
          case Some(existing) => Some(document[section := Table(table - {existing})])
  }

  function RemoveSectionChange(name: string, registered: bool, document: Table): Option<Table> {
    var section := EditedSection(document, name, registered);
    if section !in document then Some(document)
    else if EditedTable(document, section, registered).None? then None
    else Some(document - {section})
  }

  /** Where a name and a key lead: the section to edit, and the field if one maps the key. */
  datatype Target = Target(section: string, registered: bool, field: Option<IniField>)

  function TargetOf(registrations: Registrations, name: string, key: string): (target: Option<Target>)
    requires ValidRegistrations(registrations)
    ensures target.Some? && target.value.registered ==>
              target.value.section in registrations && Exposes(registrations[target.value.section], name)
    ensures target.Some? && !target.value.registered ==>
              target.value == Target(name, false, None) && ExposureOf(registrations, name).Free?
    ensures target.None? <==>
              || !ValidName(name) || ExposureOf(registrations, name).Hidden?
              || (&& ExposureOf(registrations, name).Exposed?
                  && var registration := registrations[ExposureOf(registrations, name).section];
                     FieldOf(registration, key).None? && Reserved(registration, key))
    ensures target.Some? && target.value.registered ==>
              target.value.field == FieldOf(registrations[target.value.section], key)
    ensures target.Some? && target.value.field.Some? ==> Unambiguous(target.value.field.value.kind)
  {
    if !ValidName(name) then None
    else
      match ExposureOf(registrations, name)
      case Hidden => None
      case Free => Some(Target(name, false, None))
      case Exposed(section) =>
        var field := FieldOf(registrations[section], key);
        assert field.Some? ==> Unambiguous(field.value.kind) by {
          if field.Some? {
            FieldKindOk(registrations, section, key);
          }
        }
        if field.None? && Reserved(registrations[section], key) then None else Some(Target(section, true, field))
  }

  lemma {:induction false} FieldKindOk(registrations: Registrations, section: string, key: string)
    requires ValidRegistrations(registrations) && section in registrations
    requires FieldOf(registrations[section], key).Some?
    ensures Unambiguous(FieldOf(registrations[section], key).value.kind)
  {
    var fields, field := registrations[section].ini.value.fields, FieldOf(registrations[section], key).value;
    assert ValidRegistration(registrations[section]);
    var i :| 0 <= i < |fields| && fields[i] == field;
    assert ValidField(fields[i]);
  }

  /** The document that setting a value leaves, before it is checked. */
  function SetEdit(registrations: Registrations, name: string, key: string, text: string,
                   document: Table): Option<Table>
    requires ValidRegistrations(registrations)
  {
    if !ValidName(key) then None
    else
      match TargetOf(registrations, name, key)
      case None => None
      case Some(target) =>
        match if target.field.Some? then ParseIni(target.field.value.kind, text) else Some(String(text))
        case None => None
        case Some(value) => SetChange(target.section, target.registered, target.field, key, value, document)
  }

  function RemoveKeyEdit(registrations: Registrations, name: string, key: string, document: Table): Option<Table>
    requires ValidRegistrations(registrations)
  {
    match TargetOf(registrations, name, key)
    case None => None
    case Some(target) => RemoveKeyChange(target.section, target.registered, target.field, key, document)
  }

  function RemoveSectionEdit(registrations: Registrations, name: string, document: Table): Option<Table>
    requires ValidRegistrations(registrations)
  {
    if !ValidName(name) then None
    else
      match ExposureOf(registrations, name)
      case Hidden => None
      case Free => RemoveSectionChange(name, false, document)
      case Exposed(section) => RemoveSectionChange(section, true, document)
  }

  ghost predicate SameSection(before: Table, after: Table, section: string) {
    (section in before <==> section in after) && (section in before ==> after[section] == before[section])
  }

  lemma {:induction false} FreeNamesAreApart(name: string, document: Table, registrations: Registrations,
                                             section: string)
    requires Disjoint(registrations) && ExposureOf(registrations, name).Free? && section in registrations
    ensures EditedSection(document, name, false) != section
  {
    assert Lower(section) in Aliases(section, registrations[section]);
  }

  /**
   An edit under an INI name leaves every registered section that the name does not expose alone;
   in particular an edit under an unregistered name leaves all of them alone.
   */
  lemma {:induction false} EditsAreApart(registrations: Registrations, name: string, key: string, text: string,
                                         document: Table, section: string)
    requires ValidRegistrations(registrations) && section in registrations && !Exposes(registrations[section], name)
    ensures var edit := SetEdit(registrations, name, key, text, document);
            edit.Some? ==> SameSection(document, edit.value, section)
    ensures var edit := RemoveKeyEdit(registrations, name, key, document);
            edit.Some? ==> SameSection(document, edit.value, section)
    ensures var edit := RemoveSectionEdit(registrations, name, document);
            edit.Some? ==> SameSection(document, edit.value, section)
  {
    hide Disjoint, ValidRegistration, MatchingKey, Aliases, ExposureOf;
    if ExposureOf(registrations, name).Free? {
      FreeNamesAreApart(name, document, registrations, section);
    }
  }

  // ---------- values ----------

  /** What `value` shows for a field of an exposed section. */
  function FieldValue(document: Table, section: string, registration: Registration, field: IniField): Option<string> {
    match Effective(document, section, registration)
    case None => None
    case Some(values) =>
      match PathValue(values, field.path)
      case None => None
      case Some(value) => ToIni(field.kind, value)
  }

  function StringValue(table: Table, key: string): Option<string> {
    match MatchingKey(table, key)
    case None => None
    case Some(k) => if table[k].String? then Some(table[k].text) else None
  }

  function ShownValue(document: Table, registrations: Registrations, name: string, key: string): Option<string>
    requires Disjoint(registrations)
  {
    match ExposureOf(registrations, name)
    case Hidden => None
    case Exposed(section) =>
      var registration := registrations[section];
      (match FieldOf(registration, key)
       case Some(field) => FieldValue(document, section, registration, field)
       case None =>
         match Effective(document, section, registration)
         case None => None
         case Some(values) => if Reserved(registration, key) then None else StringValue(values, key))
    case Free =>
      match MatchingKey(document, name)
      case None => None
      case Some(section) =>
        if IsSection(document, section) && AllStrings(TableAt(document, section))
        then StringValue(TableAt(document, section), key) else None
  }

  /**
   A value set through a field that the fixed layer does not touch is shown again in canonical
   form, under any ASCII case of the section's name and of the key.
   */
  lemma {:induction false} SetValueIsShown(document: Table, registrations: Registrations, name: string, key: string,
                                           text: string, section: string, field: IniField, otherName: string,
                                           otherKey: string)
    requires ValidRegistrations(registrations) && section in registrations && Exposes(registrations[section], name)
    requires FieldOf(registrations[section], key) == Some(field) && Untouched(registrations[section].fixed, field.path)
    requires SameName(name, otherName) && SameName(key, otherKey)
    requires var edit := SetEdit(registrations, name, key, text, document);
             edit.Some? && Admissible(edit.value, registrations)
    ensures var saved := Normalized(SetEdit(registrations, name, key, text, document).value, registrations);
            Unambiguous(field.kind) && ParseIni(field.kind, text).Some?
            && ToIni(field.kind, ParseIni(field.kind, text).value).Some?
            && ShownValue(saved, registrations, otherName, otherKey)
               == ToIni(field.kind, ParseIni(field.kind, text).value)
  {
    hide Merge, Disjoint, ValidRegistration, Normalized, TypesMatch, FieldsFit, AliasesClear, SetPath, PathValue,
         Untouched, MatchingKey, Aliases, ExposureOf, FieldIn, Reserved, SameName, Effective;
    FieldKindOk(registrations, section, key);
    ExposedIsFound(registrations, name, section);
    ExposureIgnoresCase(registrations, name, otherName);
    FieldIgnoresCase(registrations[section].ini.value.fields, key, otherKey);
    AcceptedIsShown(field.kind, text);
    SetFieldReads(document, registrations, section, field, key, ParseIni(field.kind, text).value);
    EffectiveIsLayers(SetEdit(registrations, name, key, text, document).value, registrations, section);
  }

  lemma {:induction false} EffectiveIsLayers(changed: Table, registrations: Registrations, section: string)
    requires section in registrations && Admissible(changed, registrations)
    ensures Effective(Normalized(changed, registrations), section, registrations[section])
            == Some(Layers(Normalized(changed, registrations), section, registrations[section]))
  {
  }

  lemma {:induction false} SetFieldReads(document: Table, registrations: Registrations, section: string,
                                         field: IniField, key: string, value: Value)
    requires section in registrations && Untouched(registrations[section].fixed, field.path) && !value.Table?
    requires SetChange(section, true, Some(field), key, value, document).Some?
    ensures var changed := SetChange(section, true, Some(field), key, value, document).value;
            PathValue(Layers(Normalized(changed, registrations), section, registrations[section]), field.path)
            == Some(value)
  {
    hide Merge, Normalized, SetPath, PathValue, Untouched, Layers;
    var changed := SetChange(section, true, Some(field), key, value, document).value;
    SetThenGet(TableAt(document, section), field.path, value, []);
    PlainValueSurvives(registrations[section], TableAt(changed, section), field.path, value);
    EffectiveAfterUpdate(changed, registrations, section);
  }

  lemma {:induction false} ExposedIsFound(registrations: Registrations, name: string, section: string)
    requires Disjoint(registrations) && section in registrations && Exposes(registrations[section], name)
    ensures ExposureOf(registrations, name) == Exposed(section)
  {
    var found := ExposureOf(registrations, name);
    assert Lower(name) in Aliases(section, registrations[section]);
    assert found.Exposed?;
    assert Lower(name) in Aliases(found.section, registrations[found.section]);
  }

  lemma {:induction false} PlainValueSurvives(registration: Registration, edited: Table, path: Path, value: Value)
    requires PathValue(edited, path) == Some(value) && !value.Table? && Untouched(registration.fixed, path)
    ensures PathValue(Merge(registration.defaults, Merge(edited, registration.fixed)), path) == Some(value)
  {
    MergeLeavesUntouched(edited, registration.fixed, path);
    MergeKeepsPlain(registration.defaults, Merge(edited, registration.fixed), path);
  }

  /** Where the fixed layer holds a plain value, that value is read, whatever was set. */
  lemma {:induction false} FixedValueWins(document: Table, section: string, registration: Registration, path: Path)
    requires PathValue(registration.fixed, path).Some? && !PathValue(registration.fixed, path).value.Table?
    ensures PathValue(Layers(document, section, registration), path) == PathValue(registration.fixed, path)
  {
    MergeKeepsPlain(Merge(registration.defaults, TableAt(document, section)), registration.fixed, path);
  }

  /** The key an edit settles on is the one that any case of the name finds afterwards. */
  lemma {:induction false} EditedKeyIsFound(before: Table, key: string, after: Table, otherKey: string)
    requires SameName(key, otherKey)
    requires var edited := match MatchingKey(before, key) case Some(k) => k case None => key;
             forall name | SameName(name, key) :: name in after <==> name in before || name == edited
    ensures MatchingKey(after, otherKey) == Some(match MatchingKey(before, key) case Some(k) => k case None => key)
  {
    hide MatchingKey, Before;
    var found := MatchingKey(before, key);
    var edited := match found case Some(k) => k case None => key;
    assert SameName(edited, otherKey) && edited in after;
    assert MatchingKey(after, otherKey).Some?;
    if found.Some? {
      BeforeTotal(edited, MatchingKey(after, otherKey).value);
    }
  }

  /** A string set under a name that no registration answers to is shown again, whatever the ASCII case. */
  lemma {:induction false} FreeValueIsShown(document: Table, registrations: Registrations, name: string, key: string,
                                            text: string, otherName: string, otherKey: string)
    requires ValidRegistrations(registrations) && ExposureOf(registrations, name).Free?
    requires SameName(name, otherName) && SameName(key, otherKey)
    requires var edit := SetEdit(registrations, name, key, text, document);
             edit.Some? && Admissible(edit.value, registrations)
    ensures var saved := Normalized(SetEdit(registrations, name, key, text, document).value, registrations);
            ShownValue(saved, registrations, otherName, otherKey) == Some(text)
  {
    hide Merge, Disjoint, ValidRegistration, MatchingKey, Admissible, Reserved, FieldIn, ExposureOf;
    var section := EditedSection(document, name, false);
    var table := TableAt(document, section);
    var existing := match MatchingKey(table, key) case Some(k) => k case None => key;
    var edited := table[existing := String(text)];
    var saved := Normalized(document[section := Table(edited)], registrations);
    assert SetEdit(registrations, name, key, text, document) == Some(document[section := Table(edited)]);
    FreeSectionIsSaved(document[section := Table(edited)], registrations, name);
    EditedKeyIsFound(document, name, saved, otherName);
    EditedKeyIsFound(table, key, edited, otherKey);
    ExposureIgnoresCase(registrations, name, otherName);
  }

  lemma {:induction false} FreeSectionIsSaved(changed: Table, registrations: Registrations, name: string)
    requires Disjoint(registrations) && ExposureOf(registrations, name).Free?
    ensures forall other | SameName(other, name) ::
              (other in Normalized(changed, registrations) <==> other in changed)
              && (other in changed ==> Normalized(changed, registrations)[other] == changed[other])
  {
    hide Disjoint, Merge;
    forall s | s in registrations ensures !SameName(s, name) {
      assert Lower(s) in Aliases(s, registrations[s]);
    }
  }

  /** A string set under a key that the section's registration leaves alone is shown again, whatever the ASCII case. */
  lemma {:induction false} ExtraValueIsShown(document: Table, registrations: Registrations, name: string, key: string,
                                             text: string, section: string, otherName: string, otherKey: string)
    requires ValidRegistrations(registrations) && section in registrations && Exposes(registrations[section], name)
    requires FieldOf(registrations[section], key).None?
    requires SameName(name, otherName) && SameName(key, otherKey)
    requires var edit := SetEdit(registrations, name, key, text, document);
             edit.Some? && Admissible(edit.value, registrations)
    ensures var saved := Normalized(SetEdit(registrations, name, key, text, document).value, registrations);
            ShownValue(saved, registrations, otherName, otherKey) == Some(text)
  {
    hide Merge, Disjoint, ValidRegistration, MatchingKey, Admissible, Reserved, ExposureOf, Normalized, Effective,
         FieldIn, Layers;
    var registration := registrations[section];
    ExposedIsFound(registrations, name, section);
    ExposureIgnoresCase(registrations, name, otherName);
    FieldIgnoresCase(registration.ini.value.fields, key, otherKey);
    assert !Reserved(registration, key);
    ReservedIgnoresCase(registration, key, otherKey);
    var changed := SetEdit(registrations, name, key, text, document).value;
    EffectiveIsLayers(changed, registrations, section);
    EffectiveAfterUpdate(changed, registrations, section);
    UnreservedIsRead(registration, TableAt(document, section), key, text, otherKey);
  }

  lemma {:induction false} ReservedIgnoresCase(registration: Registration, key: string, otherKey: string)
    requires SameName(key, otherKey)
    ensures Reserved(registration, key) == Reserved(registration, otherKey)
  {
  }

  lemma {:induction false} UnreservedIsRead(registration: Registration, table: Table, key: string, text: string,
                                            otherKey: string)
    requires !Reserved(registration, key) && SameName(key, otherKey)
    ensures var existing := match MatchingKey(table, key) case Some(k) => k case None => key;
            var values := Merge(registration.defaults, Merge(table[existing := String(text)], registration.fixed));
            StringValue(values, otherKey) == Some(text)
  {
    hide MatchingKey;
    var existing := match MatchingKey(table, key) case Some(k) => k case None => key;
    var values := Merge(registration.defaults, Merge(table[existing := String(text)], registration.fixed));
    EditedKeyIsFound(table, key, values, otherKey);
  }

  /** A removed field reads as its default again, where the fixed layer does not touch it. */
  lemma {:induction false} RemovedFieldReadsDefault(document: Table, registrations: Registrations, section: string,
                                                    field: IniField)
    requires Disjoint(registrations) && section in registrations && section in document
    requires Untouched(registrations[section].fixed, field.path)
    requires var changed := RemoveKeyChange(section, true, Some(field), field.key, document);
             changed.Some? && Admissible(changed.value, registrations)
    ensures var changed := RemoveKeyChange(section, true, Some(field), field.key, document).value;
            PathValue(Layers(Normalized(changed, registrations), section, registrations[section]), field.path)
            == PathValue(registrations[section].defaults, field.path)
  {
    var registration := registrations[section];
    var changed := RemoveKeyChange(section, true, Some(field), field.key, document).value;
    var edited := TableAt(changed, section);
    RemoveLeavesUntouched(TableAt(document, section), field.path);
    UntouchedMerged(edited, registration.fixed, field.path);
    MergeLeavesUntouched(registration.defaults, Merge(edited, registration.fixed), field.path);
    EffectiveAfterUpdate(changed, registrations, section);
  }
}
