/**
 What registered sections promise of their values (config/src/service.rs: `merge`,
 `validate_types`, `validate_section_aliases`, `effective_section`), told path by path.
 */
module ConfigMeaning {
  import opened Wrappers
  import opened TomlTables
  import opened IniValues
  import opened IniMeaning
  import opened ConfigRules

  // ---------- merged tables ----------

  /** On the way to the path the table holds a value that is not a table. */
  ghost predicate Blocked(table: Table, path: Path) {
    exists n :: 0 < n < |path| && PathValue(table, path[..n]).Some? && !PathValue(table, path[..n]).value.Table?
  }

  lemma {:induction false} BlockedStep(table: Table, path: Path)
    requires |path| > 1
    ensures Blocked(table, path)
            <==> path[0] in table && (table[path[0]].Table? ==> Blocked(table[path[0]].table, path[1..]))
  {
    assert path[..1] == [path[0]];
    forall n | 1 < n < |path| ensures path[..n][0] == path[0] && path[..n][1..] == path[1..][..n - 1] {
    }
    if Blocked(table, path) {
      var n :| 0 < n < |path| && PathValue(table, path[..n]).Some? && !PathValue(table, path[..n]).value.Table?;
      if table[path[0]].Table? {
        assert PathValue(table[path[0]].table, path[1..][..n - 1]) == PathValue(table, path[..n]);
      }
    }
    if path[0] in table {
      if !table[path[0]].Table? {
        assert PathValue(table, path[..1]).Some?;
      } else if Blocked(table[path[0]].table, path[1..]) {
        var n :| 0 < n < |path[1..]| && PathValue(table[path[0]].table, path[1..][..n]).Some?
                 && !PathValue(table[path[0]].table, path[1..][..n]).value.Table?;
        assert PathValue(table, path[..n + 1]) == PathValue(table[path[0]].table, path[1..][..n]);
      }
    }
  }

  /**
   A merged table, path by path: a value of the upper table wins, two tables merge, a plain value
   of the upper table hides everything below it, and the lower table shows wherever the upper one
   is silent.
   */
  lemma {:induction false} MergedAt(under: Table, over: Table, path: Path)
    ensures var below, above := PathValue(under, path), PathValue(over, path);
            PathValue(Merge(under, over), path)
            == if above.None? then (if Blocked(over, path) then None else below)
               else if above.value.Table? && below.Some? && below.value.Table?
                 then Some(Table(Merge(below.value.table, above.value.table)))
               else above
    decreases |path|
  {
    if |path| > 1 {
      hide Blocked;
      BlockedStep(over, path);
      if path[0] in over && over[path[0]].Table? && path[0] in under && under[path[0]].Table? {
        MergedAt(under[path[0]].table, over[path[0]].table, path[1..]);
      }
    }
  }

  // ---------- types ----------

  /** The same TOML type. */
  predicate OneType(a: Value, b: Value) {
    && (a.String? <==> b.String?) && (a.Integer? <==> b.Integer?) && (a.Boolean? <==> b.Boolean?)
    && (a.Table? <==> b.Table?) && (a.Other? && b.Other? ==> a.kind == b.kind)
  }

  /** Both tables hold something at the path, of two types. */
  predicate Clashes(values: Table, defaults: Table, path: Path) {
    && PathValue(values, path).Some? && PathValue(defaults, path).Some?
    && !OneType(PathValue(values, path).value, PathValue(defaults, path).value)
  }

  lemma {:induction false} MatchedPathsAgree(values: Table, defaults: Table, path: Path)
    requires TypesMatch(values, defaults)
    ensures !Clashes(values, defaults, path)
    decreases |path|
  {
    if path != [] && path[0] in values && path[0] in defaults {
      if |path| > 1 && values[path[0]].Table? && defaults[path[0]].Table? {
        MatchedPathsAgree(values[path[0]].table, defaults[path[0]].table, path[1..]);
      }
    }
  }

  lemma {:induction false} MismatchHasPath(values: Table, defaults: Table) returns (path: Path)
    requires !TypesMatch(values, defaults)
    ensures Clashes(values, defaults, path)
    decreases Table(defaults)
  {
    var k :| k in defaults && k in values
             && !(SameType(values[k], defaults[k])
                  && (values[k].Table? && defaults[k].Table? ==> TypesMatch(values[k].table, defaults[k].table)));
    if values[k].Table? && defaults[k].Table? {
      var rest := MismatchHasPath(values[k].table, defaults[k].table);
      path := [k] + rest;
      assert path[1..] == rest;
    } else {
      path := [k];
    }
  }

  /** The check of nested types is a statement about paths. */
  lemma {:induction false} TypesMatchIff(values: Table, defaults: Table)
    ensures TypesMatch(values, defaults) <==> forall path :: !Clashes(values, defaults, path)
  {
    hide TypesMatch, Clashes;
    if TypesMatch(values, defaults) {
      forall path ensures !Clashes(values, defaults, path) {
        MatchedPathsAgree(values, defaults, path);
      }
    } else {
      var path := MismatchHasPath(values, defaults);
    }
  }

  // ---------- sections ----------

  /** Some field's value is not of its kind. */
  ghost predicate Misfits(values: Table, registration: Registration) {
    && registration.ini.Some?
    && exists field :: field in registration.ini.value.fields && Misfit(values, field)
  }

  predicate Misfit(values: Table, field: IniField) {
    PathValue(values, field.path).Some? && !OfKind(field.kind, PathValue(values, field.path).value)
  }

  lemma {:induction false} ShownIffOfKind(kind: IniKind, value: Value)
    ensures ToIni(kind, value).Some? <==> OfKind(kind, value)
  {
  }

  lemma {:induction false} FieldsFitIff(values: Table, registration: Registration)
    ensures FieldsFit(values, registration) <==> !Misfits(values, registration)
  {
    hide ToIni, OfKind;
    if registration.ini.Some? {
      var fields := registration.ini.value.fields;
      forall i | 0 <= i < |fields| && PathValue(values, fields[i].path).Some?
        ensures ToIni(fields[i].kind, PathValue(values, fields[i].path).value).Some?
                <==> OfKind(fields[i].kind, PathValue(values, fields[i].path).value)
      {
        ShownIffOfKind(fields[i].kind, PathValue(values, fields[i].path).value);
      }
      if Misfits(values, registration) {
        var field :| field in fields && Misfit(values, field);
        var i :| 0 <= i < |fields| && fields[i] == field;
        assert !FieldsFit(values, registration);
      }
      if !FieldsFit(values, registration) {
        var i :| 0 <= i < |fields| && PathValue(values, fields[i].path).Some?
                 && ToIni(fields[i].kind, PathValue(values, fields[i].path).value).None?;
        assert Misfit(values, fields[i]);
      }
    }
  }

  /** A section has effective values exactly when it is absent or a table and no path and no field speaks against it. */
  lemma {:induction false} EffectiveIff(document: Table, section: string, registration: Registration)
    ensures var values := Layers(document, section, registration);
            Effective(document, section, registration)
            == if && (section in document ==> document[section].Table?)
                  && (forall path :: !Clashes(values, registration.defaults, path))
                  && !Misfits(values, registration)
               then Some(values) else None
  {
    hide TypesMatch, FieldsFit, Layers, Clashes, Misfits;
    var values := Layers(document, section, registration);
    TypesMatchIff(values, registration.defaults);
    FieldsFitIff(values, registration);
  }

  /** A section answers to its own name and to the name it has in the INI view, in any ASCII case. */
  predicate Answers(section: string, registration: Registration, name: string) {
    || EqualButCase(name, section)
    || (registration.ini.Some? && EqualButCase(name, registration.ini.value.name))
  }

  /** Another top-level key answers to one of the section's names. */
  ghost predicate Shadowed(document: Table, section: string, registration: Registration) {
    exists name :: name in document && name != section && Answers(section, registration, name)
  }

  lemma {:induction false} AnswersIff(section: string, registration: Registration, name: string)
    ensures Lower(name) in Aliases(section, registration) <==> Answers(section, registration, name)
  {
    hide Lower, EqualButCase;
    SameNameMeans(name, section);
    if registration.ini.Some? {
      SameNameMeans(name, registration.ini.value.name);
    }
  }

  lemma {:induction false} AliasesClearIff(document: Table, section: string, registration: Registration)
    ensures AliasesClear(document, section, registration) <==> !Shadowed(document, section, registration)
  {
    hide Aliases, Answers;
    forall name
      ensures Lower(name) in Aliases(section, registration) <==> Answers(section, registration, name)
    {
      AnswersIff(section, registration, name);
    }
  }

  /** Registered sections never answer to one name. */
  lemma {:induction false} DisjointIff(registrations: Registrations)
    ensures Disjoint(registrations) <==> forall s, t, name |
              s in registrations && t in registrations && s != t && Answers(s, registrations[s], name) ::
              !Answers(t, registrations[t], name)
  {
    hide Aliases, Answers;
    forall s, name | s in registrations
      ensures Lower(name) in Aliases(s, registrations[s]) <==> Answers(s, registrations[s], name)
    {
      AnswersIff(s, registrations[s], name);
    }
    if !Disjoint(registrations) {
      var s, t :| s in registrations && t in registrations && s != t
                  && !(Aliases(s, registrations[s]) !! Aliases(t, registrations[t]));
      var alias :| alias in Aliases(s, registrations[s]) && alias in Aliases(t, registrations[t]);
      AliasesAreLower(s, registrations[s], alias);
      assert Answers(s, registrations[s], alias) && Answers(t, registrations[t], alias);
    }
    if Disjoint(registrations) {
      forall s, t, name |
        s in registrations && t in registrations && s != t && Answers(s, registrations[s], name)
        ensures !Answers(t, registrations[t], name)
      {
        assert Lower(name) in Aliases(s, registrations[s]);
      }
    }
  }

  lemma {:induction false} AliasesAreLower(section: string, registration: Registration, alias: string)
    requires alias in Aliases(section, registration)
    ensures Lower(alias) == alias
  {
    var name := if alias == Lower(section) then section else registration.ini.value.name;
    assert forall i | 0 <= i < |alias| :: alias[i] == LowerChar(name[i]) && LowerChar(alias[i]) == alias[i];
  }

  /** What a consumer would read of a section after the document is saved. */
  function AfterSaving(document: Table, section: string, registration: Registration): Table {
    Merge(registration.defaults, Merge(TableAt(document, section), registration.fixed))
  }

  /**
   A document is saved exactly when, for every registered section, no other key answers to its
   names, it is absent or a table, no path of what it would read has another type than its default,
   and no field's value is of another kind.
   */
  lemma {:induction false} AdmissibleIff(document: Table, registrations: Registrations)
    ensures Admissible(document, registrations) <==> forall s | s in registrations ::
              && !Shadowed(document, s, registrations[s])
              && (s in document ==> document[s].Table?)
              && (forall path :: !Clashes(AfterSaving(document, s, registrations[s]), registrations[s].defaults, path))
              && !Misfits(AfterSaving(document, s, registrations[s]), registrations[s])
  {
    hide AliasesClear, Effective, Merge, Shadowed, Clashes, Misfits, Normalized, TableAt, Layers;
    forall s | s in registrations
      ensures AliasesClear(document, s, registrations[s]) && IsSection(document, s)
              && Effective(Normalized(document, registrations), s, registrations[s]).Some?
              <==> && !Shadowed(document, s, registrations[s])
                   && (s in document ==> document[s].Table?)
                   && (forall path ::
                         !Clashes(AfterSaving(document, s, registrations[s]), registrations[s].defaults, path))
                   && !Misfits(AfterSaving(document, s, registrations[s]), registrations[s])
    {
      AliasesClearIff(document, s, registrations[s]);
      if IsSection(document, s) {
        EffectiveAfterUpdate(document, registrations, s);
        NormalizedSection(document, registrations, s);
        EffectiveIff(Normalized(document, registrations), s, registrations[s]);
      }
    }
  }

  /** An edit that fails on nothing but types leaves some section with a path of another type than its default. */
  lemma {:induction false} RefusedForTypes(document: Table, registrations: Registrations)
    returns (section: string, path: Path)
    requires !Admissible(document, registrations)
    requires forall s | s in registrations ::
               && !Shadowed(document, s, registrations[s])
               && (s in document ==> document[s].Table?)
               && !Misfits(AfterSaving(document, s, registrations[s]), registrations[s])
    ensures section in registrations
    ensures Clashes(AfterSaving(document, section, registrations[section]), registrations[section].defaults, path)
  {
    hide Shadowed, Clashes, Misfits, Admissible, AfterSaving;
    AdmissibleIff(document, registrations);
    section, path :|
      && section in registrations
      && Clashes(AfterSaving(document, section, registrations[section]), registrations[section].defaults, path);
  }

  /** In a sound document no path that a registered section reads has another type than its default. */
  lemma {:induction false} SoundTypes(document: Table, registrations: Registrations)
    requires Sound(document, registrations)
    ensures forall s, path | s in registrations ::
              !Clashes(Layers(document, s, registrations[s]), registrations[s].defaults, path)
  {
    hide Effective, Layers, Clashes, AliasesClear, Misfits;
    forall s | s in registrations
      ensures forall path :: !Clashes(Layers(document, s, registrations[s]), registrations[s].defaults, path)
    {
      assert SectionSound(document, s, registrations[s]);
      EffectiveIff(document, s, registrations[s]);
    }
  }

  // ---------- registrations ----------

  predicate Named(name: string) {
    |name| > 0 && forall i | 0 <= i < |name| :: name[i] != '\0'
  }

  predicate WellFormedKind(kind: IniKind) {
    && (kind.Range? ==> kind.min <= kind.max)
    && (kind.Enum? ==> && (exists m :: m in kind.values)
                       && forall m, n | m in kind.values && n in kind.values && m != n ::
                            kind.values[m] != kind.values[n])
  }

  /** Named keys and paths, no two fields of one key in any ASCII case or of one path, kinds that have values. */
  predicate WellFormedIni(ini: IniSection) {
    && Named(ini.name)
    && (forall i | 0 <= i < |ini.fields| ::
          && Named(ini.fields[i].key) && |ini.fields[i].path| > 0 && WellFormedKind(ini.fields[i].kind)
          && forall k | 0 <= k < |ini.fields[i].path| :: Named(ini.fields[i].path[k]))
    && forall i, j | 0 <= i < |ini.fields| && 0 <= j < |ini.fields| && i != j ::
         !EqualButCase(ini.fields[i].key, ini.fields[j].key) && ini.fields[i].path != ini.fields[j].path
  }

  /**
   A registration is valid exactly when its INI view is well formed and the defaults under the fixed
   values keep their types and fit their fields.
   */
  lemma {:induction false} ValidRegistrationIff(registration: Registration)
    ensures ValidRegistration(registration) <==>
              var values := Merge(registration.defaults, registration.fixed);
              && (registration.ini.Some? ==> WellFormedIni(registration.ini.value))
              && (forall path :: !Clashes(values, registration.defaults, path))
              && !Misfits(values, registration)
  {
    hide ValidIni, WellFormedIni, Clashes, Misfits, Effective, Merge;
    EffectiveIff(map[], "defaults", registration);
    MergeNothing(registration.defaults);
    assert TableAt(map[], "defaults") == map[];
    if registration.ini.Some? {
      ValidIniIff(registration.ini.value);
    }
  }

  lemma {:induction false} ValidIniIff(ini: IniSection)
    ensures ValidIni(ini) <==> WellFormedIni(ini)
  {
    hide SameName, EqualButCase, WellFormedKind, ValidKind, Named, ValidName;
    forall name ensures ValidName(name) <==> Named(name) {
      NamedIff(name);
    }
    forall kind ensures ValidKind(kind) <==> WellFormedKind(kind) {
      ValidKindIff(kind);
    }
    forall i, j | 0 <= i < |ini.fields| && 0 <= j < |ini.fields|
      ensures SameName(ini.fields[i].key, ini.fields[j].key) <==> EqualButCase(ini.fields[i].key, ini.fields[j].key)
      ensures EqualButCase(ini.fields[i].key, ini.fields[j].key) <==> EqualButCase(ini.fields[j].key, ini.fields[i].key)
    {
      SameNameMeans(ini.fields[i].key, ini.fields[j].key);
      CaseIsSymmetric(ini.fields[i].key, ini.fields[j].key);
    }
    assert forall i | 0 <= i < |ini.fields| ::
        ValidField(ini.fields[i]) <==>
          && Named(ini.fields[i].key) && |ini.fields[i].path| > 0 && WellFormedKind(ini.fields[i].kind)
          && forall k | 0 <= k < |ini.fields[i].path| :: Named(ini.fields[i].path[k]);
  }

  lemma {:induction false} CaseIsSymmetric(a: string, b: string)
    ensures EqualButCase(a, b) <==> EqualButCase(b, a)
  {
  }

  lemma {:induction false} NamedIff(name: string)
    ensures ValidName(name) <==> Named(name)
  {
  }

  lemma {:induction false} ValidKindIff(kind: IniKind)
    ensures ValidKind(kind) <==> WellFormedKind(kind)
  {
  }
}
