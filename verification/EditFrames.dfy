/**
 How far an edit through the INI view reaches (config/src/service.rs: `set_value`, `remove_key`,
 `remove_section`): one path of the document and nothing beside it.
 */
module EditFrames {
  import opened Wrappers
  import opened TomlTables
  import opened IniValues
  import opened IniMeaning
  import opened ConfigRules
  import opened ConfigMeaning
  import opened IniEdits

  /** Nothing changes at a path that runs apart from this one. */
  ghost predicate ChangesOnly(before: Table, after: Table, path: Path) {
    forall other | Apart(path, other) :: PathValue(after, other) == PathValue(before, other)
  }

  /** A key of the table that differs from the name at most in ASCII case, or the name itself. */
  predicate Settles(table: Table, name: string, key: string) {
    match MatchingKey(table, name)
    case Some(found) => key == found
    case None => key == name
  }

  /** The section of the document that an edit under this name addresses. */
  ghost predicate Addressed(registrations: Registrations, document: Table, name: string, section: string)
    requires Disjoint(registrations)
  {
    match ExposureOf(registrations, name)
    case Exposed(exposed) => section == exposed
    case Free => Settles(document, name, section)
    case Hidden => false
  }

  /** The path of the section that the key stands for. */
  ghost predicate Mapped(registrations: Registrations, document: Table, name: string, key: string, section: string,
                         path: Path)
    requires Disjoint(registrations)
  {
    var exposure := ExposureOf(registrations, name);
    if exposure.Exposed? && FieldOf(registrations[exposure.section], key).Some?
    then path == FieldOf(registrations[exposure.section], key).value.path
    else |path| == 1 && Settles(TableAt(document, section), key, path[0])
  }

  lemma {:induction false} InSection(document: Table, section: string, path: Path)
    requires path != [] && IsSection(document, section)
    ensures PathValue(document, [section] + path) == PathValue(TableAt(document, section), path)
  {
    assert ([section] + path)[1..] == path;
  }

  lemma {:induction false} SectionFrame(document: Table, section: string, edited: Table, path: Path)
    requires IsSection(document, section) && path != []
    requires ChangesOnly(TableAt(document, section), edited, path)
    ensures ChangesOnly(document, document[section := Table(edited)], [section] + path)
  {
    hide Apart, TableAt, IsSection;
    var after := document[section := Table(edited)];
    assert TableAt(after, section) == edited && IsSection(after, section) by { SectionSet(document, section, edited); }
    forall other | Apart([section] + path, other) ensures PathValue(after, other) == PathValue(document, other) {
      if other != [] && other[0] == section {
        ApartBelow(section, path, other);
        assert other == [section] + other[1..];
        InSection(document, section, other[1..]);
        InSection(after, section, other[1..]);
      }
    }
  }

  lemma {:induction false} SectionSet(document: Table, section: string, edited: Table)
    ensures var after := document[section := Table(edited)];
            TableAt(after, section) == edited && IsSection(after, section)
  {
  }

  lemma {:induction false} ApartBelow(section: string, path: Path, other: Path)
    requires Apart([section] + path, other) && other[0] == section
    ensures |other| > 1 && Apart(path, other[1..])
  {
    ApartTail([section] + path, other);
    assert ([section] + path)[1..] == path;
  }

  lemma {:induction false} SetFrame(table: Table, path: Path, value: Value)
    requires SetPath(table, path, value).Some?
    ensures ChangesOnly(table, SetPath(table, path, value).value, path)
  {
    hide SetPath, PathValue, Apart;
    forall other | Apart(path, other)
      ensures PathValue(SetPath(table, path, value).value, other) == PathValue(table, other)
    {
      SetThenGet(table, path, value, other);
    }
  }

  lemma {:induction false} RemoveFrame(table: Table, path: Path)
    requires RemovePath(table, path).Some?
    ensures ChangesOnly(table, RemovePath(table, path).value, path)
  {
    hide RemovePath, PathValue, Apart;
    forall other | Apart(path, other)
      ensures PathValue(RemovePath(table, path).value, other) == PathValue(table, other)
    {
      RemoveThenGet(table, path, other);
    }
  }

  lemma {:induction false} NothingChanges(document: Table, path: Path)
    ensures ChangesOnly(document, document, path)
  {
  }

  /** Setting a value changes one path of the document, which then holds what was set. */
  lemma {:induction false} SetTouchesOnePath(registrations: Registrations, name: string, key: string, text: string,
                                             document: Table) returns (section: string, path: Path)
    requires ValidRegistrations(registrations) && SetEdit(registrations, name, key, text, document).Some?
    ensures Addressed(registrations, document, name, section)
    ensures Mapped(registrations, document, name, key, section, path)
    ensures var edited := SetEdit(registrations, name, key, text, document).value;
            && ChangesOnly(document, edited, [section] + path)
            && PathValue(edited, [section] + path).Some?
            && (ExposureOf(registrations, name).Free? ==> PathValue(edited, [section] + path) == Some(String(text)))
  {
    hide Disjoint, ValidRegistration, ChangesOnly, MatchingKey, Reserved, ParseIni, SetPath, PathValue, AllStrings;
    var target := TargetOf(registrations, name, key).value;
    section := EditedSection(document, target.section, target.registered);
    var table := TableAt(document, section);
    var edited := SetEdit(registrations, name, key, text, document).value;
    if target.field.Some? {
      path := target.field.value.path;
      var value := ParseIni(target.field.value.kind, text).value;
      SetFrame(table, path, value);
      SetSection(document, section, path, value);
    } else {
      var existing := match MatchingKey(table, key) case Some(k) => k case None => key;
      path := [existing];
      OneKey(table, existing, String(text));
      SetFrame(table, path, String(text));
      SetSection(document, section, path, String(text));
    }
  }

  lemma {:induction false} OneKey(table: Table, key: string, value: Value)
    ensures SetPath(table, [key], value) == Some(table[key := value])
    ensures RemovePath(table, [key]) == Some(table - {key})
  {
  }

  lemma {:induction false} SetSection(document: Table, section: string, path: Path, value: Value)
    requires IsSection(document, section) && SetPath(TableAt(document, section), path, value).Some?
    ensures var edited := SetPath(TableAt(document, section), path, value).value;
            && ChangesOnly(document, document[section := Table(edited)], [section] + path)
            && PathValue(document[section := Table(edited)], [section] + path) == Some(value)
  {
    hide ChangesOnly, TableAt;
    var table := TableAt(document, section);
    var edited := SetPath(table, path, value).value;
    SetFrame(table, path, value);
    SectionFrame(document, section, edited, path);
    SetThenGet(table, path, value, []);
    SectionSet(document, section, edited);
    InSection(document[section := Table(edited)], section, path);
  }

  /** Removing a key changes one path of the document, which then holds nothing. */
  lemma {:induction false} RemoveTouchesOnePath(registrations: Registrations, name: string, key: string,
                                                document: Table) returns (section: string, path: Path)
    requires ValidRegistrations(registrations) && RemoveKeyEdit(registrations, name, key, document).Some?
    ensures Addressed(registrations, document, name, section)
    ensures Mapped(registrations, document, name, key, section, path)
    ensures var edited := RemoveKeyEdit(registrations, name, key, document).value;
            ChangesOnly(document, edited, [section] + path) && PathValue(edited, [section] + path).None?
  {
    hide Disjoint, ValidRegistration, ChangesOnly, MatchingKey, Reserved, RemovePath, PathValue, AllStrings;
    var target := TargetOf(registrations, name, key).value;
    section := EditedSection(document, target.section, target.registered);
    var table := TableAt(document, section);
    if target.field.Some? {
      path := target.field.value.path;
    } else {
      var existing := match MatchingKey(table, key) case Some(k) => k case None => key;
      path := [existing];
      OneKey(table, existing, String(""));
    }
    if section !in document {
      NothingChanges(document, [section] + path);
      NothingThere(document, section, path);
    } else if target.field.None? && MatchingKey(table, key).None? {
      NothingChanges(document, [section] + path);
      InSection(document, section, path);
      UnmatchedIsAbsent(table, key);
    } else {
      RemoveInSection(document, section, path);
    }
  }

  lemma {:induction false} NothingThere(document: Table, section: string, path: Path)
    requires section !in document
    ensures PathValue(document, [section] + path).None?
  {
  }

  lemma {:induction false} UnmatchedIsAbsent(table: Table, key: string)
    requires MatchingKey(table, key).None?
    ensures PathValue(table, [key]).None?
  {
    assert SameName(key, key);
  }

  lemma {:induction false} RemoveInSection(document: Table, section: string, path: Path)
    requires IsSection(document, section) && RemovePath(TableAt(document, section), path).Some?
    ensures var edited := RemovePath(TableAt(document, section), path).value;
            && ChangesOnly(document, document[section := Table(edited)], [section] + path)
            && PathValue(document[section := Table(edited)], [section] + path).None?
  {
    hide ChangesOnly, TableAt;
    var table := TableAt(document, section);
    var edited := RemovePath(table, path).value;
    RemoveFrame(table, path);
    SectionFrame(document, section, edited, path);
    RemoveThenGet(table, path, []);
    SectionSet(document, section, edited);
    InSection(document[section := Table(edited)], section, path);
  }

  /** Removing a section takes its key out of the document and leaves every other key alone. */
  lemma {:induction false} RemovedSectionIsGone(registrations: Registrations, name: string, document: Table)
    requires ValidRegistrations(registrations) && RemoveSectionEdit(registrations, name, document).Some?
    ensures exists section ::
              Addressed(registrations, document, name, section)
              && RemoveSectionEdit(registrations, name, document).value == document - {section}
  {
    hide Disjoint, ValidRegistration, MatchingKey, AllStrings;
    var exposure := ExposureOf(registrations, name);
    var section := EditedSection(document, if exposure.Exposed? then exposure.section else name, exposure.Exposed?);
    assert Addressed(registrations, document, name, section);
    if section !in document {
      assert document - {section} == document;
    }
  }

  /** A removed section reads its defaults and fixed values. */
  lemma {:induction false} RemovedSectionReadsDefaults(registrations: Registrations, name: string, document: Table,
                                                       section: string)
    requires ValidRegistrations(registrations) && RemoveSectionEdit(registrations, name, document).Some?
    requires ExposureOf(registrations, name) == Exposed(section)
    ensures var edited := RemoveSectionEdit(registrations, name, document).value;
            Layers(Normalized(edited, registrations), section, registrations[section])
            == Merge(registrations[section].defaults, registrations[section].fixed)
  {
    hide Disjoint, ValidRegistration, Merge, Normalized, Layers;
    var edited := RemoveSectionEdit(registrations, name, document).value;
    RemovedSectionIsGone(registrations, name, document);
    assert section !in edited;
    EffectiveAfterUpdate(edited, registrations, section);
    MergeNothing(registrations[section].fixed);
  }

  /** A key that no field maps can be set without changing what any field reads. */
  lemma {:induction false} ExtraValueKeepsFields(registrations: Registrations, name: string, key: string, text: string,
                                                 document: Table, section: string, field: IniField)
    requires ValidRegistrations(registrations) && ExposureOf(registrations, name) == Exposed(section)
    requires FieldOf(registrations[section], key).None? && registrations[section].ini.Some?
    requires field in registrations[section].ini.value.fields
    requires SetEdit(registrations, name, key, text, document).Some?
    ensures var edited, registration := SetEdit(registrations, name, key, text, document).value, registrations[section];
            PathValue(Layers(Normalized(edited, registrations), section, registration), field.path)
            == PathValue(Merge(registration.defaults, Merge(TableAt(document, section), registration.fixed)),
                         field.path)
  {
    hide Disjoint, Merge, Normalized, Layers, MatchingKey, PathValue, Effective, SameName;
    var registration := registrations[section];
    var edited := SetEdit(registrations, name, key, text, document).value;
    var table := TableAt(document, section);
    var existing := match MatchingKey(table, key) case Some(k) => k case None => key;
    assert !Reserved(registration, key);
    FieldHasPath(registrations, section, field);
    assert SameName(existing, key) by { SameToItself(key); }
    assert field.path[0] != existing;
    assert edited == document[section := Table(table[existing := String(text)])];
    SectionSet(document, section, table[existing := String(text)]);
    EffectiveAfterUpdate(edited, registrations, section);
    SameBranch(registration, table, existing, String(text), field.path);
  }

  lemma {:induction false} SameToItself(key: string)
    ensures SameName(key, key)
  {
  }

  lemma {:induction false} FieldHasPath(registrations: Registrations, section: string, field: IniField)
    requires ValidRegistrations(registrations) && section in registrations && registrations[section].ini.Some?
    requires field in registrations[section].ini.value.fields
    ensures field.path != []
    ensures exists i :: 0 <= i < |registrations[section].ini.value.fields|
                        && registrations[section].ini.value.fields[i] == field
  {
    var fields := registrations[section].ini.value.fields;
    assert ValidRegistration(registrations[section]);
    var i :| 0 <= i < |fields| && fields[i] == field;
    assert ValidField(fields[i]);
  }

  lemma {:induction false} SameBranch(registration: Registration, table: Table, key: string, value: Value, path: Path)
    requires path != [] && path[0] != key
    ensures PathValue(Merge(registration.defaults, Merge(table[key := value], registration.fixed)), path)
            == PathValue(Merge(registration.defaults, Merge(table, registration.fixed)), path)
  {
    hide Merge;
    var branch := path[0];
    MergeAt(table[key := value], registration.fixed, branch);
    MergeAt(table, registration.fixed, branch);
    MergeAt(registration.defaults, Merge(table[key := value], registration.fixed), branch);
    MergeAt(registration.defaults, Merge(table, registration.fixed), branch);
    PathInBranch(Merge(registration.defaults, Merge(table[key := value], registration.fixed)),
                 Merge(registration.defaults, Merge(table, registration.fixed)), path);
  }

  lemma {:induction false} PathInBranch(one: Table, other: Table, path: Path)
    requires path != [] && At(one, path[0]) == At(other, path[0])
    ensures PathValue(one, path) == PathValue(other, path)
  {
  }

  // ---------- when an edit is possible ----------

  /** A default, a fixed value, a field or the head of a field's path has this name, in any ASCII case. */
  ghost predicate Taken(registration: Registration, key: string) {
    || (exists name :: name in registration.defaults && EqualButCase(name, key))
    || (exists name :: name in registration.fixed && EqualButCase(name, key))
    || (registration.ini.Some? && exists field :: field in registration.ini.value.fields && TakenBy(field, key))
  }

  predicate TakenBy(field: IniField, key: string) {
    EqualButCase(field.key, key) || (field.path != [] && EqualButCase(field.path[0], key))
  }

  lemma {:induction false} ReservedIff(registration: Registration, key: string)
    ensures Reserved(registration, key) <==> Taken(registration, key)
  {
    hide SameName, EqualButCase;
    forall name ensures SameName(name, key) <==> EqualButCase(name, key) {
      SameNameMeans(name, key);
    }
    if registration.ini.Some? {
      var fields := registration.ini.value.fields;
      if i :| 0 <= i < |fields|
              && (|| SameName(fields[i].key, key) || (fields[i].path != [] && SameName(fields[i].path[0], key)))
      {
        assert fields[i] in fields && TakenBy(fields[i], key);
      }
      if field :| field in fields && TakenBy(field, key) {
        var i :| 0 <= i < |fields| && fields[i] == field;
      }
    }
  }

  /** A section that can be edited: absent or a table, and of strings only unless it is registered. */
  predicate Editable(document: Table, section: string, registered: bool) {
    section in document ==>
      && document[section].Table?
      && (!registered ==> forall k | k in document[section].table :: document[section].table[k].String?)
  }

  lemma {:induction false} EditedTableIff(document: Table, section: string, registered: bool)
    ensures EditedTable(document, section, registered)
            == if Editable(document, section, registered) then Some(TableAt(document, section)) else None
  {
  }

  /** The name leads to a section, and the key to a field of it or to a name that is not taken. */
  ghost predicate Reaches(registrations: Registrations, name: string, key: string)
    requires Disjoint(registrations)
  {
    var exposure := ExposureOf(registrations, name);
    && Named(name) && !exposure.Hidden?
    && (exposure.Exposed? && FieldOf(registrations[exposure.section], key).None? ==>
          !Taken(registrations[exposure.section], key))
  }

  lemma {:induction false} TargetIff(registrations: Registrations, name: string, key: string)
    requires ValidRegistrations(registrations)
    ensures var exposure := ExposureOf(registrations, name);
            TargetOf(registrations, name, key)
            == if !Reaches(registrations, name, key) then None
               else if exposure.Exposed?
                 then Some(Target(exposure.section, true, FieldOf(registrations[exposure.section], key)))
               else Some(Target(name, false, None))
  {
    hide Reserved, Taken, Disjoint, ValidRegistration, ExposureOf;
    NamedIff(name);
    var exposure := ExposureOf(registrations, name);
    if exposure.Exposed? {
      ReservedIff(registrations[exposure.section], key);
    }
  }

  /**
   Setting is possible exactly when the names lead somewhere, the text means something to the field,
   and neither the section nor a value on the way to the field's path stands against it.
   */
  lemma {:induction false} SetIsPossible(registrations: Registrations, name: string, key: string, text: string,
                                         document: Table)
    requires ValidRegistrations(registrations)
    ensures SetEdit(registrations, name, key, text, document).Some? <==>
              && Named(key) && Reaches(registrations, name, key)
              && (forall section | Addressed(registrations, document, name, section) ::
                    Editable(document, section, ExposureOf(registrations, name).Exposed?))
              && (forall section, field |
                    ExposureOf(registrations, name) == Exposed(section)
                    && FieldOf(registrations[section], key) == Some(field) ::
                    && (exists value :: Means(field.kind, text, value))
                    && !Blocked(TableAt(document, section), field.path))
  {
    hide Reaches, Means, Editable, Blocked, SetPath, ParseIni, MatchingKey, Disjoint, ValidRegistration, ExposureOf,
         AllStrings, TableAt, EditedTable;
    NamedIff(key);
    TargetIff(registrations, name, key);
    var exposure := ExposureOf(registrations, name);
    if Reaches(registrations, name, key) && !exposure.Hidden? {
      var target := TargetOf(registrations, name, key).value;
      var section := EditedSection(document, target.section, target.registered);
      AddressedIs(registrations, document, name, section);
      EditedTableIff(document, section, target.registered);
      if target.field.Some? {
        var field := target.field.value;
        SomeMeaning(field.kind, text);
        PathIsOpen(registrations, document, section, field);
      }
    }
  }

  lemma {:induction false} AddressedIs(registrations: Registrations, document: Table, name: string, section: string)
    requires Disjoint(registrations) && !ExposureOf(registrations, name).Hidden?
    requires var exposure := ExposureOf(registrations, name);
             section == EditedSection(document, if exposure.Exposed? then exposure.section else name, exposure.Exposed?)
    ensures forall other :: Addressed(registrations, document, name, other) <==> other == section
  {
  }

  lemma {:induction false} SomeMeaning(kind: IniKind, text: string)
    requires Unambiguous(kind)
    ensures ParseIni(kind, text).Some? <==> exists value :: Means(kind, text, value)
  {
    hide Means, ParseIni;
    if ParseIni(kind, text).Some? {
      AcceptedMeans(kind, text, ParseIni(kind, text).value);
    }
    if value :| Means(kind, text, value) {
      AcceptedMeans(kind, text, value);
    }
  }

  lemma {:induction false} PathIsOpen(registrations: Registrations, document: Table, section: string, field: IniField)
    requires ValidRegistrations(registrations) && section in registrations && registrations[section].ini.Some?
    requires field in registrations[section].ini.value.fields
    ensures forall value :: SetPath(TableAt(document, section), field.path, value).Some?
                            <==> !Blocked(TableAt(document, section), field.path)
    ensures RemovePath(TableAt(document, section), field.path).Some?
            <==> !Blocked(TableAt(document, section), field.path)
  {
    hide SetPath, RemovePath, PathValue, TableAt;
    FieldHasPath(registrations, section, field);
    forall value
      ensures SetPath(TableAt(document, section), field.path, value).Some?
              <==> !Blocked(TableAt(document, section), field.path)
    {
      SetSucceedsIff(TableAt(document, section), field.path, value);
    }
    RemoveSucceedsIff(TableAt(document, section), field.path);
  }

  /** Removing succeeds exactly when no plain value stands on the way. */
  lemma {:induction false} RemoveSucceedsIff(table: Table, path: Path)
    ensures RemovePath(table, path).Some? <==> path != [] && !Blocked(table, path)
    decreases |path|
  {
    if |path| > 1 {
      hide Blocked;
      BlockedStep(table, path);
      if path[0] in table && table[path[0]].Table? {
        RemoveSucceedsIff(table[path[0]].table, path[1..]);
      }
    }
  }

  /** Removing a key is possible exactly when the names lead somewhere and nothing that is there stands against it. */
  lemma {:induction false} RemoveIsPossible(registrations: Registrations, name: string, key: string, document: Table)
    requires ValidRegistrations(registrations)
    ensures RemoveKeyEdit(registrations, name, key, document).Some? <==>
              && Reaches(registrations, name, key)
              && (forall section | Addressed(registrations, document, name, section) ::
                    Editable(document, section, ExposureOf(registrations, name).Exposed?))
              && (forall section, field |
                    ExposureOf(registrations, name) == Exposed(section)
                    && FieldOf(registrations[section], key) == Some(field) && section in document ::
                    !Blocked(TableAt(document, section), field.path))
  {
    hide Reaches, Blocked, RemovePath, MatchingKey, Disjoint, ValidRegistration, ExposureOf,
         AllStrings, TableAt, EditedTable;
    TargetIff(registrations, name, key);
    var exposure := ExposureOf(registrations, name);
    if Reaches(registrations, name, key) && !exposure.Hidden? {
      var target := TargetOf(registrations, name, key).value;
      var section := EditedSection(document, target.section, target.registered);
      AddressedIs(registrations, document, name, section);
      EditedTableIff(document, section, target.registered);
      if target.field.Some? {
        PathIsOpen(registrations, document, section, target.field.value);
      }
    }
  }

  /** Removing a section is possible exactly when the name leads to one that is absent or can be edited. */
  lemma {:induction false} RemoveSectionIsPossible(registrations: Registrations, name: string, document: Table)
    requires ValidRegistrations(registrations)
    ensures RemoveSectionEdit(registrations, name, document).Some? <==>
              && Named(name) && !ExposureOf(registrations, name).Hidden?
              && forall section | Addressed(registrations, document, name, section) ::
                   Editable(document, section, ExposureOf(registrations, name).Exposed?)
  {
    hide MatchingKey, Disjoint, ValidRegistration, ExposureOf, AllStrings, TableAt, EditedTable;
    NamedIff(name);
    var exposure := ExposureOf(registrations, name);
    if Named(name) && !exposure.Hidden? {
      var section := EditedSection(document, if exposure.Exposed? then exposure.section else name, exposure.Exposed?);
      AddressedIs(registrations, document, name, section);
      EditedTableIff(document, section, exposure.Exposed?);
    }
  }
}
