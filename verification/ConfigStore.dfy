/**
 The store: a cached document, the file other programs may change at any time, and the
 registrations (config/src/service.rs, `Store`). The file is the table it parses to, or nothing
 when it cannot be read; `saves` says whether the final write succeeds.
 */
module ConfigStore {
  import opened Wrappers
  import opened TomlTables
  import opened IniValues
  import opened IniMeaning
  import opened ConfigRules
  import opened ConfigMeaning
  import opened IniEdits

  predicate FixedIn(registrations: Registrations, done: set<string>, section: string) {
    section in done && section in registrations && registrations[section].fixed != map[]
  }

  /** Sections in `done` have been normalized; the others are as the edit left them. */
  ghost predicate PartlyNormalized(before: Table, now: Table, registrations: Registrations, done: set<string>) {
    forall k ::
      && (k in now <==> k in before || FixedIn(registrations, done, k))
      && (k in now ==> now[k] == if FixedIn(registrations, done, k)
                                 then Table(Merge(TableAt(before, k), registrations[k].fixed)) else before[k])
  }

  /** The names that normalizing brings in alias no other registered section. */
  lemma {:induction false} AliasesUnmoved(before: Table, now: Table, registrations: Registrations, done: set<string>,
                                          section: string)
    requires Disjoint(registrations) && section in registrations && done <= registrations.Keys
    requires PartlyNormalized(before, now, registrations, done)
    ensures AliasesClear(now, section, registrations[section])
            <==> AliasesClear(before, section, registrations[section])
  {
    forall name | name in now && name !in before && name != section
      ensures Lower(name) !in Aliases(section, registrations[section])
    {
      assert Lower(name) in Aliases(name, registrations[name]);
    }
  }

  lemma {:induction false} SectionUnmoved(before: Table, now: Table, registrations: Registrations, done: set<string>,
                                          section: string)
    requires section in registrations && section !in done && PartlyNormalized(before, now, registrations, done)
    ensures IsSection(now, section) == IsSection(before, section) && TableAt(now, section) == TableAt(before, section)
  {
    hide Merge;
    assert !FixedIn(registrations, done, section);
    assert section in now <==> section in before;
  }

  /** A normalized section reads as it will once every section is normalized. */
  lemma {:induction false} SectionNormalized(before: Table, now: Table, registrations: Registrations, done: set<string>,
                                             section: string)
    requires section in registrations && section in done && PartlyNormalized(before, now, registrations, done)
    requires IsSection(before, section)
    ensures Effective(now, section, registrations[section])
            == Effective(Normalized(before, registrations), section, registrations[section])
  {
    hide Merge, TypesMatch, FieldsFit;
    NormalizedSection(before, registrations, section);
    if !FixedIn(registrations, done, section) {
      MergeNothing(TableAt(before, section));
    }
    assert section in now <==> section in before || FixedIn(registrations, done, section);
    assert TableAt(now, section) == TableAt(Normalized(before, registrations), section);
    assert IsSection(now, section);
  }

  /** What `Admissible` asks of one section. */
  ghost predicate AdmissibleAt(changed: Table, registrations: Registrations, section: string)
    requires section in registrations
  {
    && AliasesClear(changed, section, registrations[section])
    && IsSection(changed, section)
    && Effective(Normalized(changed, registrations), section, registrations[section]).Some?
  }

  /** Normalizing and checking one more section, whatever was done before it. */
  lemma {:induction false} NormalizeStep(before: Table, now: Table, registrations: Registrations, done: set<string>,
                                         section: string)
    requires Disjoint(registrations) && done <= registrations.Keys && section in registrations && section !in done
    requires PartlyNormalized(before, now, registrations, done)
    ensures AliasesClear(now, section, registrations[section]) == AliasesClear(before, section, registrations[section])
    ensures IsSection(now, section) == IsSection(before, section)
    ensures !IsSection(before, section) ==> Effective(now, section, registrations[section]).None?
    ensures IsSection(before, section) ==>
              var next := if registrations[section].fixed == map[] then now
                          else now[section := Table(Merge(TableAt(now, section), registrations[section].fixed))];
              && PartlyNormalized(before, next, registrations, done + {section})
              && Effective(next, section, registrations[section])
                 == Effective(Normalized(before, registrations), section, registrations[section])
  {
    hide AliasesClear, Merge, PartlyNormalized, Normalized, Disjoint, TableAt, IsSection, FixedIn, TypesMatch,
         FieldsFit, Layers;
    AliasesUnmoved(before, now, registrations, done, section);
    SectionUnmoved(before, now, registrations, done, section);
    if IsSection(before, section) {
      NormalizeOne(before, now, registrations, done, section);
      var next := if registrations[section].fixed == map[] then now
                  else now[section := Table(Merge(TableAt(now, section), registrations[section].fixed))];
      SectionNormalized(before, next, registrations, done + {section}, section);
    }
  }

  lemma {:induction false} NormalizeOne(before: Table, now: Table, registrations: Registrations, done: set<string>,
                                        section: string)
    requires section in registrations && section !in done && PartlyNormalized(before, now, registrations, done)
    requires TableAt(now, section) == TableAt(before, section)
    ensures var next := if registrations[section].fixed == map[] then now
                        else now[section := Table(Merge(TableAt(now, section), registrations[section].fixed))];
            PartlyNormalized(before, next, registrations, done + {section})
  {
    hide Merge, TableAt;
    forall k ensures FixedIn(registrations, done + {section}, k)
                     <==> FixedIn(registrations, done, k) || (k == section && registrations[section].fixed != map[]) {
    }
  }

  lemma {:induction false} AllNormalized(before: Table, now: Table, registrations: Registrations)
    requires PartlyNormalized(before, now, registrations, registrations.Keys)
    requires forall s | s in registrations :: AdmissibleAt(before, registrations, s)
    ensures now == Normalized(before, registrations) && Admissible(before, registrations)
  {
    hide Merge, AliasesClear, Effective, TableAt, IsSection, PartlyNormalized, Normalized;
    NormalizedWhenDone(before, now, registrations);
  }

  lemma {:induction false} NormalizedWhenDone(before: Table, now: Table, registrations: Registrations)
    requires PartlyNormalized(before, now, registrations, registrations.Keys)
    ensures now == Normalized(before, registrations)
  {
    hide Merge, TableAt;
    assert forall k :: FixedIn(registrations, registrations.Keys, k) <==> k in FixedSections(registrations);
    assert now.Keys == Normalized(before, registrations).Keys;
    assert forall k | k in now :: now[k] == Normalized(before, registrations)[k];
  }

  lemma {:induction false} NothingNormalized(before: Table, registrations: Registrations)
    ensures PartlyNormalized(before, before, registrations, {})
  {
  }

  lemma {:induction false} CheckedSection(before: Table, registrations: Registrations, section: string)
    requires section in registrations
    ensures AdmissibleAt(before, registrations, section) <==>
              && AliasesClear(before, section, registrations[section])
              && IsSection(before, section)
              && Effective(Normalized(before, registrations), section, registrations[section]).Some?
  {
  }

  lemma {:induction false} Refused(before: Table, registrations: Registrations, section: string)
    requires section in registrations && !AdmissibleAt(before, registrations, section)
    ensures !Admissible(before, registrations)
  {
  }

  /**
   How an update leaves the effective values of a section whose own entry it does not edit: kept,
   unless the stored section hides a table from the fixed layer (`TomlTables.Layered`).
   */
  ghost predicate KeptIfLayered(before: Table, after: Table, registration: Registration, section: string) {
    Layers(after, section, registration) == Layers(before, section, registration)
    <==> Layered(registration.defaults, TableAt(before, section), registration.fixed)
  }

  lemma {:induction false} UneditedIsKept(stored: Table, changed: Table, registrations: Registrations, section: string)
    requires section in registrations && SameSection(stored, changed, section) && Admissible(changed, registrations)
    ensures KeptIfLayered(stored, Normalized(changed, registrations), registrations[section], section)
  {
    hide Merge, Normalized, Layered, Effective, AliasesClear;
    assert IsSection(changed, section);
    UneditedSectionKept(changed, registrations, section);
  }

  /** A successful write, as it is read back. */
  lemma {:induction false} WriteOutcome(section: string, patch: Table, stored: Table, registrations: Registrations)
    requires IsSection(stored, section) && Admissible(WriteChange(section, patch, stored).value, registrations)
    ensures var after := Normalized(WriteChange(section, patch, stored).value, registrations);
            && (section in registrations ==>
                  Effective(after, section, registrations[section])
                  == Some(Merge(registrations[section].defaults,
                                Merge(Merge(TableAt(stored, section), patch), registrations[section].fixed))))
            && (forall s | s in registrations && s != section :: KeptIfLayered(stored, after, registrations[s], s))
  {
    hide Merge, Normalized, Layered, AliasesClear, Effective, KeptIfLayered, Layers;
    var changed := WriteChange(section, patch, stored).value;
    if section in registrations {
      WriteEdits(section, patch, stored, registrations);
      EffectiveIsLayers(changed, registrations, section);
    }
    forall s | s in registrations && s != section
      ensures KeptIfLayered(stored, Normalized(changed, registrations), registrations[s], s)
    {
      UneditedIsKept(stored, changed, registrations, s);
    }
  }

  /**
   The section holds at the field's path a value that the text stands for, and reads it back, unless
   the fixed layer has something there.
   */
  ghost predicate HoldsMeaning(document: Table, section: string, registration: Registration, field: IniField,
                               text: string) {
    exists value ::
      && Means(field.kind, text, value)
      && (Untouched(registration.fixed, field.path) ==>
            && PathValue(TableAt(document, section), field.path) == Some(value)
            && PathValue(Layers(document, section, registration), field.path) == Some(value))
  }

  /** A text set through a field is stored as what it means. */
  lemma {:induction false} SetTextIsStored(stored: Table, registrations: Registrations, name: string, key: string,
                                           text: string)
    requires ValidRegistrations(registrations)
    requires var edit := SetEdit(registrations, name, key, text, stored);
             edit.Some? && Admissible(edit.value, registrations)
    requires ExposureOf(registrations, name).Exposed?
    requires FieldOf(registrations[ExposureOf(registrations, name).section], key).Some?
    ensures var section := ExposureOf(registrations, name).section;
            HoldsMeaning(Normalized(SetEdit(registrations, name, key, text, stored).value, registrations), section,
                         registrations[section], FieldOf(registrations[section], key).value, text)
  {
    hide Merge, Means, Untouched, ParseIni, SetPath, PathValue, Layers, Normalized, ValidRegistration, Disjoint,
         ExposureOf, Reserved, MatchingKey, AliasesClear, Effective;
    var section := ExposureOf(registrations, name).section;
    var registration := registrations[section];
    var field := FieldOf(registration, key).value;
    var value := ParseIni(field.kind, text).value;
    var changed := SetEdit(registrations, name, key, text, stored).value;
    AcceptedMeans(field.kind, text, value);
    PlainMeaning(field.kind, text, value);
    SetThenGet(TableAt(stored, section), field.path, value, []);
    NormalizedSection(changed, registrations, section);
    if Untouched(registration.fixed, field.path) {
      MergeLeavesUntouched(TableAt(changed, section), registration.fixed, field.path);
      SetFieldReads(stored, registrations, section, field, key, value);
    }
  }

  lemma {:induction false} PlainMeaning(kind: IniKind, text: string, value: Value)
    requires Means(kind, text, value)
    ensures !value.Table?
  {
  }

  lemma {:induction false} OneMoreRegistration(document: Table, registrations: Registrations, section: string,
                                               registration: Registration)
    requires ValidRegistrations(registrations) && Sound(document, registrations) && section !in registrations
    requires ValidName(section) && ValidRegistration(registration)
    ensures Disjoint(registrations[section := registration])
            <==> forall s | s in registrations :: Aliases(section, registration) !! Aliases(s, registrations[s])
    ensures Disjoint(registrations[section := registration]) ==>
              ValidRegistrations(registrations[section := registration])
    ensures SectionSound(document, section, registration) ==> Sound(document, registrations[section := registration])
  {
    hide ValidRegistration, SectionSound, Aliases;
    var extended := registrations[section := registration];
    if Disjoint(extended) {
      forall s | s in registrations ensures Aliases(section, registration) !! Aliases(s, registrations[s]) {
        assert Aliases(section, extended[section]) !! Aliases(s, extended[s]);
      }
    }
  }

  class Store {
    // The table in the file, as the last program to write it left it.
    var file: Option<Table>
    var document: Table
    var registrations: Registrations

    /** Registrations are in order and every registered section of the cached document is sound. */
    ghost predicate Valid()
      reads this
    {
      ValidRegistrations(registrations) && Sound(document, registrations)
    }

    /** Loading succeeds only when the file can be read. */
    constructor (contents: Table)
      ensures Valid() && document == contents && file == Some(contents) && registrations == map[]
    {
      file, document, registrations := Some(contents), contents, map[];
    }

    /** Another program replaces or removes the file. */
    method ExternalChange(contents: Option<Table>)
      requires Valid()
      modifies this`file
      ensures Valid() && file == contents
    {
      file := contents;
    }

    method Register(section: string, registration: Registration) returns (ok: bool)
      requires Valid()
      modifies this`registrations
      ensures Valid()
      ensures ok <==> && ValidName(section)
                      && if section in old(registrations) then old(registrations)[section] == registration
                         else
                           && ValidRegistration(registration)
                           && Disjoint(old(registrations)[section := registration])
                           && SectionSound(document, section, registration)
      ensures registrations == if ok then old(registrations)[section := registration] else old(registrations)
    {
      hide ValidRegistrations, ValidRegistration, Disjoint, Sound, Aliases, AliasesClear, Effective;
      if !ValidName(section) {
        return false;
      }
      if section in registrations {
        if registrations[section] == registration {
          assert registrations[section := registration] == registrations;
          return true;
        }
        return false;
      }
      if !ValidRegistration(registration) {
        return false;
      }
      OneMoreRegistration(document, registrations, section, registration);
      var others := registrations.Keys;
      while others != {}
        invariant others <= registrations.Keys
        invariant forall s | s in registrations && s !in others ::
                    Aliases(section, registration) !! Aliases(s, registrations[s])
        decreases others
      {
        var other :| other in others;
        if !(Aliases(section, registration) !! Aliases(other, registrations[other])) {
          return false;
        }
        others := others - {other};
      }
      if !AliasesClear(document, section, registration) || Effective(document, section, registration).None? {
        return false;
      }
      registrations := registrations[section := registration];
      ok := true;
    }

    /** Registered sections always read back as an effective section. */
    method Read(section: string) returns (values: Option<Table>)
      requires Valid()
      ensures section in registrations ==> values == Some(Layers(document, section, registrations[section]))
      ensures section !in registrations ==>
                values == if IsSection(document, section) then Some(TableAt(document, section)) else None
      ensures section in registrations ==>
                forall path :: !Clashes(values.value, registrations[section].defaults, path)
    {
      hide Clashes, Layers;
      SoundTypes(document, registrations);
      if section in registrations {
        assert SectionSound(document, section, registrations[section]);
        values := Effective(document, section, registrations[section]);
      } else {
        values := if IsSection(document, section) then Some(TableAt(document, section)) else None;
      }
    }

    /**
     Checks and normalizes one section at a time, in any order. Because alias sets are disjoint,
     neither the verdict nor the result depends on that order.
     */
    method NormalizeAll(changed: Table) returns (r: Option<Table>)
      requires Valid()
      ensures r.Some? <==> Admissible(changed, registrations)
      ensures r.Some? ==> r.value == Normalized(changed, registrations)
    {
      hide PartlyNormalized, AdmissibleAt, Normalized, Merge, Effective, AliasesClear, Admissible, ValidRegistration,
           Sound;
      var now := changed;
      var left := registrations.Keys;
      ghost var done := {};
      assert PartlyNormalized(changed, now, registrations, done) by { NothingNormalized(changed, registrations); }
      while left != {}
        invariant left <= registrations.Keys && done == registrations.Keys - left
        invariant PartlyNormalized(changed, now, registrations, done)
        invariant forall s | s in done :: AdmissibleAt(changed, registrations, s)
        decreases left
      {
        var section :| section in left;
        var registration := registrations[section];
        NormalizeStep(changed, now, registrations, done, section);
        CheckedSection(changed, registrations, section);
        if !AliasesClear(now, section, registration) {
          Refused(changed, registrations, section);
          return None;
        }
        if registration.fixed != map[] {
          if !IsSection(now, section) {
            Refused(changed, registrations, section);
            return None;
          }
          now := now[section := Table(Merge(TableAt(now, section), registration.fixed))];
        }
        if Effective(now, section, registration).None? {
          Refused(changed, registrations, section);
          return None;
        }
        left, done := left - {section}, done + {section};
      }
      assert done == registrations.Keys;
      AllNormalized(changed, now, registrations);
      r := Some(now);
    }

    /**
     Rereads the file, edits it, checks every registered section and saves. Success is exactly an
     admissible edit of a readable file that is written; on any failure nothing has changed.
     */
    method Update(change: Table -> Option<Table>, saves: bool) returns (ok: bool)
      requires Valid()
      modifies this`file, this`document
      ensures Valid()
      ensures ok <==> && old(file).Some? && change(old(file).value).Some? && saves
                      && Admissible(change(old(file).value).value, registrations)
      ensures ok ==> document == Normalized(change(old(file).value).value, registrations) && file == Some(document)
      ensures forall s, path | s in registrations ::
                !Clashes(Layers(document, s, registrations[s]), registrations[s].defaults, path)
      ensures !ok ==> document == old(document) && file == old(file)
    {
      hide Clashes, Layers, Normalized, Admissible, Sound;
      SoundTypes(document, registrations);
      if file.None? {
        return false;
      }
      var changed := change(file.value);
      if changed.None? {
        return false;
      }
      var normalized := NormalizeAll(changed.value);
      if normalized.None? || !saves {
        return false;
      }
      AdmissibleIsSound(changed.value, registrations);
      document := normalized.value;
      file := Some(document);
      SoundTypes(document, registrations);
      ok := true;
    }

    method Write(section: string, patch: Table, saves: bool) returns (ok: bool)
      requires Valid()
      modifies this`file, this`document
      ensures Valid()
      ensures ok <==> && ValidName(section) && saves && old(file).Some? && IsSection(old(file).value, section)
                      && Admissible(WriteChange(section, patch, old(file).value).value, registrations)
      ensures ok ==> file == Some(document)
                     && document == Normalized(WriteChange(section, patch, old(file).value).value, registrations)
      ensures ok && section in registrations ==>
                Effective(document, section, registrations[section])
                == Some(Merge(registrations[section].defaults,
                              Merge(Merge(TableAt(old(file).value, section), patch), registrations[section].fixed)))
      ensures ok ==> forall s | s in registrations && s != section ::
                KeptIfLayered(old(file).value, document, registrations[s], s)
      ensures forall s, path | s in registrations ::
                !Clashes(Layers(document, s, registrations[s]), registrations[s].defaults, path)
      ensures !ok ==> document == old(document) && file == old(file)
    {
      hide Merge, Normalized, Admissible, Effective, KeptIfLayered, Layered, ValidRegistrations, Sound, Clashes, Layers;
      if !ValidName(section) {
        SoundTypes(document, registrations);
        return false;
      }
      ok := Update(d => WriteChange(section, patch, d), saves);
      if ok {
        WriteOutcome(section, patch, old(file).value, registrations);
      }
    }

    /** What a name and a key show: a mapped field reads back as its effective value. */
    method Value(name: string, key: string) returns (shown: Option<string>)
      requires Valid()
      ensures shown == ShownValue(document, registrations, name, key)
      ensures var exposure := ExposureOf(registrations, name);
              exposure.Exposed? && FieldOf(registrations[exposure.section], key).Some? ==>
                var field := FieldOf(registrations[exposure.section], key).value;
                var value := PathValue(Layers(document, exposure.section, registrations[exposure.section]), field.path);
                && (shown.Some? <==> value.Some?)
                && (value.Some? ==> Shows(field.kind, value.value, shown.value)
                                    && Means(field.kind, shown.value, value.value))
    {
      hide Sound, Layers, Reserved, MatchingKey, ToIni, TypesMatch, FieldsFit, Shows, Means;
      match ExposureOf(registrations, name) {
        case Hidden =>
          return None;
        case Exposed(section) =>
          var values := Read(section);
          ReadIsEffective(section);
          var field := FieldOf(registrations[section], key);
          if field.Some? {
            FieldReadsBack(section, key);
            var value := PathValue(values.value, field.value.path);
            return if value.None? then None else ToIni(field.value.kind, value.value);
          }
          if Reserved(registrations[section], key) {
            return None;
          }
          var found := MatchingKey(values.value, key);
          var table := values.value;
          return if found.Some? && table[found.value].String? then Some(table[found.value].text) else None;
        case Free =>
          var section := MatchingKey(document, name);
          if section.None? || !document[section.value].Table? || !AllStrings(document[section.value].table) {
            return None;
          }
          var table := document[section.value].table;
          var found := MatchingKey(table, key);
          return if found.Some? then Some(table[found.value].text) else None;
      }
    }

    lemma {:induction false} ReadIsEffective(section: string)
      requires Valid() && section in registrations
      ensures Effective(document, section, registrations[section])
              == Some(Layers(document, section, registrations[section]))
    {
      assert SectionSound(document, section, registrations[section]);
    }

    /** A sound section has a form to show for each field it holds, and the form is read back. */
    lemma {:induction false} FieldReadsBack(section: string, key: string)
      requires Valid() && section in registrations && FieldOf(registrations[section], key).Some?
      ensures var field := FieldOf(registrations[section], key).value;
              var value := PathValue(Layers(document, section, registrations[section]), field.path);
              value.Some? ==>
                && ToIni(field.kind, value.value).Some?
                && Shows(field.kind, value.value, ToIni(field.kind, value.value).value)
                && Means(field.kind, ToIni(field.kind, value.value).value, value.value)
    {
      var registration := registrations[section];
      var field := FieldOf(registration, key).value;
      var value := PathValue(Layers(document, section, registration), field.path);
      FieldKindOk(registrations, section, key);
      ReadIsEffective(section);
      assert FieldsFit(Layers(document, section, registration), registration);
      var i :| 0 <= i < |registration.ini.value.fields| && registration.ini.value.fields[i] == field;
      hide Layers, ToIni, ParseIni, Effective, Shows, Means;
      if value.Some? {
        var text := ToIni(field.kind, value.value).value;
        ShownIsReadBack(field.kind, value.value);
        ShownMeans(field.kind, value.value, text);
        AcceptedMeans(field.kind, text, value.value);
      }
    }

    method SetValue(name: string, key: string, text: string, saves: bool) returns (ok: bool)
      requires Valid()
      modifies this`file, this`document
      ensures Valid()
      ensures ok <==> && saves && old(file).Some?
                      && var edit := SetEdit(registrations, name, key, text, old(file).value);
                         edit.Some? && Admissible(edit.value, registrations)
      ensures ok ==> file == Some(document)
                     && document
                        == Normalized(SetEdit(registrations, name, key, text, old(file).value).value, registrations)
      ensures ok ==>
                var exposure := ExposureOf(registrations, name);
                exposure.Exposed? && FieldOf(registrations[exposure.section], key).Some? ==>
                  HoldsMeaning(document, exposure.section, registrations[exposure.section],
                               FieldOf(registrations[exposure.section], key).value, text)
      ensures ok ==> forall s | s in registrations && !Exposes(registrations[s], name) ::
                KeptIfLayered(old(file).value, document, registrations[s], s)
      ensures !ok ==> document == old(document) && file == old(file)
    {
      hide SetEdit, Normalized, Admissible, KeptIfLayered, ValidRegistration, Disjoint, Sound, HoldsMeaning, Clashes,
           ExposureOf;
      ghost var stored := file;
      var current := registrations;
      ok := Update(d requires ValidRegistrations(current) => SetEdit(current, name, key, text, d), saves);
      if ok {
        ghost var exposure := ExposureOf(registrations, name);
        if exposure.Exposed? && FieldOf(registrations[exposure.section], key).Some? {
          SetTextIsStored(stored.value, registrations, name, key, text);
        }
        forall s | s in registrations && !Exposes(registrations[s], name)
          ensures KeptIfLayered(stored.value, document, registrations[s], s)
        {
          EditsAreApart(registrations, name, key, text, stored.value, s);
          UneditedIsKept(stored.value, SetEdit(registrations, name, key, text, stored.value).value, registrations, s);
        }
      }
    }

    method RemoveKey(name: string, key: string, saves: bool) returns (ok: bool)
      requires Valid()
      modifies this`file, this`document
      ensures Valid()
      ensures ok <==> && saves && old(file).Some?
                      && var edit := RemoveKeyEdit(registrations, name, key, old(file).value);
                         edit.Some? && Admissible(edit.value, registrations)
      ensures ok ==> file == Some(document)
                     && document
                        == Normalized(RemoveKeyEdit(registrations, name, key, old(file).value).value, registrations)
      ensures ok ==> forall s | s in registrations && !Exposes(registrations[s], name) ::
                KeptIfLayered(old(file).value, document, registrations[s], s)
      ensures !ok ==> document == old(document) && file == old(file)
    {
      hide RemoveKeyEdit, Normalized, Admissible, KeptIfLayered, ValidRegistrations, Sound;
      ghost var stored := file;
      var current := registrations;
      ok := Update(d requires ValidRegistrations(current) => RemoveKeyEdit(current, name, key, d), saves);
      if ok {
        forall s | s in registrations && !Exposes(registrations[s], name)
          ensures KeptIfLayered(stored.value, document, registrations[s], s)
        {
          EditsAreApart(registrations, name, key, "", stored.value, s);
          UneditedIsKept(stored.value, RemoveKeyEdit(registrations, name, key, stored.value).value, registrations, s);
        }
      }
    }

    method RemoveSection(name: string, saves: bool) returns (ok: bool)
      requires Valid()
      modifies this`file, this`document
      ensures Valid()
      ensures ok <==> && saves && old(file).Some?
                      && var edit := RemoveSectionEdit(registrations, name, old(file).value);
                         edit.Some? && Admissible(edit.value, registrations)
      ensures ok ==> file == Some(document)
                     && document
                        == Normalized(RemoveSectionEdit(registrations, name, old(file).value).value, registrations)
      ensures ok ==> forall s | s in registrations && !Exposes(registrations[s], name) ::
                KeptIfLayered(old(file).value, document, registrations[s], s)
      ensures !ok ==> document == old(document) && file == old(file)
    {
      hide RemoveSectionEdit, Normalized, Admissible, KeptIfLayered, ValidRegistrations, Sound;
      ghost var stored := file;
      var current := registrations;
      ok := Update(d requires ValidRegistrations(current) => RemoveSectionEdit(current, name, d), saves);
      if ok {
        forall s | s in registrations && !Exposes(registrations[s], name)
          ensures KeptIfLayered(stored.value, document, registrations[s], s)
        {
          EditsAreApart(registrations, name, "", "", stored.value, s);
          UneditedIsKept(stored.value, RemoveSectionEdit(registrations, name, stored.value).value, registrations, s);
        }
      }
    }
  }
}
