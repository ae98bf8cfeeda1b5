/**
 Tables of the configuration document and the operations on them (config/src/service.rs:
 `merge`, `path_value`, `set_path`, `remove_path`, `validate_types`). Text is not modelled:
 a document is the table it parses to.
 */
module TomlTables {
  import opened Wrappers

  type i64 = x: int | -0x8000_0000_0000_0000 <= x < 0x8000_0000_0000_0000

  /** Values that configuration never looks inside. */
  datatype Foreign = Float | Datetime | Array

  datatype Value =
    | String(text: string)
    | Integer(number: i64)
    | Boolean(flag: bool)
    | Other(kind: Foreign, content: string)
    | Table(table: Table)

  type Table = map<string, Value>

  // ---------- merging ----------

  function Merge(values: Table, patch: Table): (merged: Table)
    ensures merged.Keys == values.Keys + patch.Keys
    decreases Table(patch)
  {
    map k | k in values.Keys + patch.Keys ::
      if k !in patch then values[k]
      else if k in values && values[k].Table? && patch[k].Table? then Table(Merge(values[k].table, patch[k].table))
      else patch[k]
  }

  /** The loop over the patch, in whatever order its keys come. */
  method MergeInto(values: Table, patch: Table) returns (merged: Table)
    ensures merged == Merge(values, patch)
    decreases Table(patch)
  {
    merged := values;
    var keys := patch.Keys;
    while keys != {}
      invariant keys <= patch.Keys
      invariant merged.Keys == values.Keys + (patch.Keys - keys)
      invariant forall k | k in merged ::
                  merged[k] == if k in patch && k !in keys then Merge(values, patch)[k] else values[k]
      decreases keys
    {
      var key :| key in keys;
      if key in merged && merged[key].Table? && patch[key].Table? {
        var nested := MergeInto(merged[key].table, patch[key].table);
        merged := merged[key := Table(nested)];
      } else {
        merged := merged[key := patch[key]];
      }
      keys := keys - {key};
    }
  }

  lemma {:induction false} MergeNothing(values: Table)
    ensures Merge(values, map[]) == values && Merge(map[], values) == values
  {
  }

  lemma {:induction false} MergeSelf(values: Table)
    ensures Merge(values, values) == values
    decreases Table(values)
  {
    forall k | k in values && values[k].Table? {
      MergeSelf(values[k].table);
    }
  }

  /** Applying the same patch twice is applying it once. */
  lemma {:induction false} MergeIdempotent(values: Table, patch: Table)
    ensures Merge(Merge(values, patch), patch) == Merge(values, patch)
    decreases Table(patch)
  {
    forall k | k in patch && patch[k].Table?
      ensures Merge(Merge(values, patch), patch)[k] == Merge(values, patch)[k]
    {
      if k in values && values[k].Table? {
        MergeIdempotent(values[k].table, patch[k].table);
      } else {
        MergeSelf(patch[k].table);
      }
    }
  }

  /** Every path of `inner` is also a path of `outer`. */
  ghost predicate Within(inner: Table, outer: Table)
    decreases Table(inner)
  {
    forall k | k in inner ::
      k in outer && (inner[k].Table? && outer[k].Table? ==> Within(inner[k].table, outer[k].table))
  }

  /** Merging under a table adds nothing exactly when all paths are there already. */
  lemma {:induction false} AbsorbedIffWithin(inner: Table, outer: Table)
    ensures Merge(inner, outer) == outer <==> Within(inner, outer)
    decreases Table(inner)
  {
    forall k | k in inner && k in outer && inner[k].Table? && outer[k].Table? {
      AbsorbedIffWithin(inner[k].table, outer[k].table);
    }
    if Merge(inner, outer) == outer {
      forall k | k in inner
        ensures k in outer && (inner[k].Table? && outer[k].Table? ==> Within(inner[k].table, outer[k].table))
      {
        assert k in Merge(inner, outer);
        assert Merge(inner, outer)[k] == outer[k];
      }
    }
  }

  /**
   The middle layer never hides a table of the bottom layer behind a plain value where the top
   layer has a table again, unless the bottom table would have added no path there.
   */
  ghost predicate Layered(bottom: Table, middle: Table, top: Table)
    decreases Table(bottom)
  {
    forall k | k in bottom && k in middle && k in top && bottom[k].Table? && top[k].Table? ::
      if middle[k].Table? then Layered(bottom[k].table, middle[k].table, top[k].table)
      else Within(bottom[k].table, top[k].table)
  }

  /** Grouping does not matter exactly for such layers. */
  lemma {:induction false} MergeAssociative(bottom: Table, middle: Table, top: Table)
    ensures Merge(Merge(bottom, middle), top) == Merge(bottom, Merge(middle, top)) <==> Layered(bottom, middle, top)
    decreases Table(bottom), 1
  {
    var left, right := Merge(Merge(bottom, middle), top), Merge(bottom, Merge(middle, top));
    assert left.Keys == right.Keys;
    forall k | k in left
      ensures left[k] == right[k]
              <==> (k in bottom && k in middle && k in top && bottom[k].Table? && top[k].Table? ==>
                      if middle[k].Table? then Layered(bottom[k].table, middle[k].table, top[k].table)
                      else Within(bottom[k].table, top[k].table))
    {
      MergeAssociativeAt(bottom, middle, top, k);
    }
    if Layered(bottom, middle, top) {
      assert forall k | k in left :: left[k] == right[k];
    }
    if left == right {
      forall k | k in bottom && k in middle && k in top && bottom[k].Table? && top[k].Table?
        ensures if middle[k].Table? then Layered(bottom[k].table, middle[k].table, top[k].table)
                else Within(bottom[k].table, top[k].table)
      {
        assert k in left && left[k] == right[k];
      }
    }
  }

  lemma {:induction false} MergeAssociativeAt(bottom: Table, middle: Table, top: Table, k: string)
    requires k in bottom || k in middle || k in top
    ensures Merge(Merge(bottom, middle), top)[k] == Merge(bottom, Merge(middle, top))[k]
            <==> (k in bottom && k in middle && k in top && bottom[k].Table? && top[k].Table? ==>
                    if middle[k].Table? then Layered(bottom[k].table, middle[k].table, top[k].table)
                    else Within(bottom[k].table, top[k].table))
    decreases Table(bottom), 0
  {
    if k in bottom && k in middle && k in top && bottom[k].Table? && top[k].Table? {
      if middle[k].Table? {
        MergeAssociative(bottom[k].table, middle[k].table, top[k].table);
      } else {
        AbsorbedIffWithin(bottom[k].table, top[k].table);
      }
    }
  }

  /** Two layers agree on which of their shared paths are tables. */
  ghost predicate SameShape(a: Table, b: Table)
    decreases Table(a)
  {
    forall k | k in a && k in b ::
      (a[k].Table? <==> b[k].Table?) && (a[k].Table? && b[k].Table? ==> SameShape(a[k].table, b[k].table))
  }

  lemma {:induction false} SameShapeIsLayered(bottom: Table, middle: Table, top: Table)
    requires SameShape(bottom, middle)
    ensures Layered(bottom, middle, top)
    decreases Table(bottom)
  {
    forall k | k in bottom && k in middle && k in top && bottom[k].Table? && top[k].Table?
      ensures middle[k].Table? && Layered(bottom[k].table, middle[k].table, top[k].table)
    {
      SameShapeIsLayered(bottom[k].table, middle[k].table, top[k].table);
    }
  }

  /** The table a layer holds at a key; empty when it holds none. */
  function Sub(layer: Table, k: string): Table {
    if k in layer && layer[k].Table? then layer[k].table else map[]
  }

  predicate Plain(layer: Table, k: string) {
    k in layer && !layer[k].Table?
  }

  /**
   Four layers read from the bottom. Where the defaults hold a table, either nothing above is
   plain, or the topmost layer present is plain, or the tables above the last plain value already
   have every path of the default table.
   */
  ghost predicate Stacked(defaults: Table, stored: Table, patch: Table, fixed: Table)
    decreases Table(defaults), 1
  {
    forall k | k in defaults :: StackedAt(defaults, stored, patch, fixed, k)
  }

  ghost predicate StackedAt(defaults: Table, stored: Table, patch: Table, fixed: Table, k: string)
    requires k in defaults
    decreases Table(defaults), 0
  {
    defaults[k].Table? && !Plain(fixed, k) ==>
      var under, top := defaults[k].table, Sub(fixed, k);
      if Plain(patch, k) then k in fixed ==> Within(under, top)
      else if Plain(stored, k) then k in patch || k in fixed ==> Within(under, Merge(Sub(patch, k), top))
      else Stacked(under, Sub(stored, k), Sub(patch, k), top)
  }

  /**
   Merging the patch and the fixed values into the stored layer first, as the store does, gives the
   four layers read in order exactly when they are stacked.
   */
  lemma {:induction false} StackedIff(defaults: Table, stored: Table, patch: Table, fixed: Table)
    ensures Merge(defaults, Merge(Merge(stored, patch), fixed)) == Merge(Merge(Merge(defaults, stored), patch), fixed)
            <==> Stacked(defaults, stored, patch, fixed)
    decreases Table(defaults), 1
  {
    var saved := Merge(defaults, Merge(Merge(stored, patch), fixed));
    var read := Merge(Merge(Merge(defaults, stored), patch), fixed);
    assert saved.Keys == read.Keys;
    forall k | k in saved
      ensures saved[k] == read[k] <==> (k in defaults ==> StackedAt(defaults, stored, patch, fixed, k))
    {
      StackedIffAt(defaults, stored, patch, fixed, k);
    }
    if saved == read {
      forall k | k in defaults ensures StackedAt(defaults, stored, patch, fixed, k) {
        assert k in saved;
      }
    } else {
      var k :| k in saved && saved[k] != read[k];
      assert k in defaults && !StackedAt(defaults, stored, patch, fixed, k);
    }
  }

  /** What a layer holds at a key, and how two such values merge. */
  function At(layer: Table, k: string): Option<Value> {
    if k in layer then Some(layer[k]) else None
  }

  function Over(under: Option<Value>, over: Option<Value>): Option<Value> {
    if over.None? then under
    else if under.Some? && under.value.Table? && over.value.Table?
      then Some(Table(Merge(under.value.table, over.value.table)))
    else over
  }

  lemma {:induction false} MergeAt(a: Table, b: Table, k: string)
    ensures At(Merge(a, b), k) == Over(At(a, k), At(b, k))
  {
  }

  function TableOf(value: Option<Value>): Table {
    if value.Some? && value.value.Table? then value.value.table else map[]
  }

  lemma {:induction false} StackedIffAt(defaults: Table, stored: Table, patch: Table, fixed: Table, k: string)
    requires k in defaults || k in stored || k in patch || k in fixed
    ensures Merge(defaults, Merge(Merge(stored, patch), fixed))[k]
            == Merge(Merge(Merge(defaults, stored), patch), fixed)[k]
            <==> (k in defaults ==> StackedAt(defaults, stored, patch, fixed, k))
    decreases Table(defaults), 0
  {
    hide Merge, Within, Over, Stacked;
    var d, s, p, f := At(defaults, k), At(stored, k), At(patch, k), At(fixed, k);
    MergeAt(stored, patch, k);
    MergeAt(Merge(stored, patch), fixed, k);
    MergeAt(defaults, Merge(Merge(stored, patch), fixed), k);
    MergeAt(defaults, stored, k);
    MergeAt(Merge(defaults, stored), patch, k);
    MergeAt(Merge(Merge(defaults, stored), patch), fixed, k);
    if d.Some? && d.value.Table? {
      var under := d.value.table;
      StackedIff(under, TableOf(s), TableOf(p), TableOf(f));
      AbsorbedIffWithin(under, TableOf(f));
      AbsorbedIffWithin(under, Merge(TableOf(p), TableOf(f)));
      StackedValues(under, s, p, f);
    } else {
      OverPlain(d, s, p, f);
    }
  }

  lemma {:induction false} OverPlain(d: Option<Value>, s: Option<Value>, p: Option<Value>, f: Option<Value>)
    requires d.Some? ==> !d.value.Table?
    ensures Over(d, Over(Over(s, p), f)) == Over(Over(Over(d, s), p), f)
  {
  }

  /** The case analysis on which layers are present and which are tables. */
  lemma {:induction false} StackedValues(under: Table, s: Option<Value>, p: Option<Value>, f: Option<Value>)
    ensures var saved := Over(Some(Table(under)), Over(Over(s, p), f));
            var read := Over(Over(Over(Some(Table(under)), s), p), f);
            if f.Some? && !f.value.Table? then saved == read
            else if p.Some? && !p.value.Table? then
              saved == read <==> (f.Some? ==> Merge(under, TableOf(f)) == TableOf(f))
            else if s.Some? && !s.value.Table? then
              saved == read
              <==> (p.Some? || f.Some? ==>
                      Merge(under, Merge(TableOf(p), TableOf(f))) == Merge(TableOf(p), TableOf(f)))
            else
              saved == read <==> Merge(under, Merge(Merge(TableOf(s), TableOf(p)), TableOf(f)))
                                 == Merge(Merge(Merge(under, TableOf(s)), TableOf(p)), TableOf(f))
  {
    hide Merge;
    MergeNothing(TableOf(s));
    MergeNothing(TableOf(p));
    MergeNothing(TableOf(f));
    MergeNothing(under);
    MergeNothing(Merge(TableOf(s), TableOf(p)));
    MergeNothing(Merge(under, TableOf(s)));
    MergeNothing(Merge(Merge(under, TableOf(s)), TableOf(p)));
  }

  lemma {:induction false} SameShapeIsStacked(defaults: Table, stored: Table, patch: Table, fixed: Table)
    requires SameShape(defaults, stored) && SameShape(defaults, patch)
    ensures Stacked(defaults, stored, patch, fixed)
    decreases Table(defaults)
  {
    forall k | k in defaults && defaults[k].Table? && !Plain(fixed, k)
      ensures Stacked(defaults[k].table, Sub(stored, k), Sub(patch, k), Sub(fixed, k))
    {
      SameShapeIsStacked(defaults[k].table, Sub(stored, k), Sub(patch, k), Sub(fixed, k));
    }
  }

  /** A top layer that has been merged into the middle one adds nothing again. */
  lemma {:induction false} TopAbsorbed(bottom: Table, middle: Table, top: Table)
    ensures Merge(Merge(bottom, Merge(middle, top)), top) == Merge(bottom, Merge(middle, top))
    decreases Table(top)
  {
    var once := Merge(bottom, Merge(middle, top));
    forall k | k in top
      ensures Merge(once, top)[k] == once[k]
    {
      if top[k].Table? {
        MergeSelf(top[k].table);
        var inMiddle, inBottom := k in middle && middle[k].Table?, k in bottom && bottom[k].Table?;
        if inMiddle && inBottom {
          TopAbsorbed(bottom[k].table, middle[k].table, top[k].table);
        } else if inMiddle {
          MergeIdempotent(middle[k].table, top[k].table);
        } else if inBottom {
          MergeIdempotent(bottom[k].table, top[k].table);
        }
      }
    }
  }

  // ---------- paths ----------

  type Path = seq<string>

  function PathValue(table: Table, path: Path): Option<Value>
    decreases |path|
  {
    if path == [] || path[0] !in table then None
    else if |path| == 1 then Some(table[path[0]])
    else if table[path[0]].Table? then PathValue(table[path[0]].table, path[1..])
    else None
  }

  /** Creates missing tables on the way; a plain value on the way refuses the whole update. */
  function SetPath(table: Table, path: Path, value: Value): Option<Table>
    decreases |path|
  {
    if path == [] then None
    else if |path| == 1 then Some(table[path[0] := value])
    else if path[0] in table && !table[path[0]].Table? then None
    else
      match SetPath(if path[0] in table then table[path[0]].table else map[], path[1..], value)
      case None => None
      case Some(nested) => Some(table[path[0] := Table(nested)])
  }

  /** Removes the value and every table that this leaves empty. */
  function RemovePath(table: Table, path: Path): Option<Table>
    decreases |path|
  {
    if path == [] then None
    else if |path| == 1 then Some(table - {path[0]})
    else if path[0] !in table then Some(table)
    else if !table[path[0]].Table? then None
    else
      match RemovePath(table[path[0]].table, path[1..])
      case None => None
      case Some(nested) => Some(if nested == map[] then table - {path[0]} else table[path[0] := Table(nested)])
  }

  /** Neither path runs through the other. */
  predicate Apart(p: Path, q: Path) {
    exists i :: 0 <= i < |p| && i < |q| && p[i] != q[i]
  }

  lemma {:induction false} ApartTail(p: Path, q: Path)
    requires Apart(p, q) && p[0] == q[0]
    ensures Apart(p[1..], q[1..])
  {
    var i :| 0 <= i < |p| && i < |q| && p[i] != q[i];
    assert p[1..][i - 1] == p[i] && q[1..][i - 1] == q[i];
  }

  /** A successful write is read back, and disturbs no path that runs apart from it. */
  lemma {:induction false} SetThenGet(table: Table, path: Path, value: Value, other: Path)
    requires SetPath(table, path, value).Some?
    ensures PathValue(SetPath(table, path, value).value, path) == Some(value)
    ensures Apart(path, other) ==> PathValue(SetPath(table, path, value).value, other) == PathValue(table, other)
    decreases |path|
  {
    if |path| > 1 {
      var under := if path[0] in table then table[path[0]].table else map[];
      SetThenGet(under, path[1..], value, if other == [] then [] else other[1..]);
      if Apart(path, other) && other[0] == path[0] {
        ApartTail(path, other);
        assert |other| > 1;
        assert PathValue(SetPath(table, path, value).value, other)
               == PathValue(SetPath(under, path[1..], value).value, other[1..]);
      }
    }
  }

  /** Writing succeeds exactly when no plain value stands on the way. */
  lemma {:induction false} SetSucceedsIff(table: Table, path: Path, value: Value)
    ensures SetPath(table, path, value).Some?
            <==> path != [] && forall n | 0 < n < |path| ::
                   PathValue(table, path[..n]).Some? ==> PathValue(table, path[..n]).value.Table?
    decreases |path|
  {
    if |path| > 1 {
      assert path[..1] == [path[0]];
      var under := if path[0] in table && table[path[0]].Table? then table[path[0]].table else map[];
      SetSucceedsIff(under, path[1..], value);
      forall n | 1 < n < |path| && path[0] in table && table[path[0]].Table?
        ensures PathValue(table, path[..n]) == PathValue(under, path[1..][..n - 1])
      {
        assert path[..n][1..] == path[1..][..n - 1];
      }
      if path[0] in table && table[path[0]].Table? && SetPath(table, path, value).Some? {
        forall n | 0 < n < |path| && PathValue(table, path[..n]).Some?
          ensures PathValue(table, path[..n]).value.Table?
        {
          if n > 1 {
            assert PathValue(table, path[..n]) == PathValue(under, path[1..][..n - 1]);
          }
        }
      }
      if path[0] in table && table[path[0]].Table? && SetPath(table, path, value).None? {
        var n :| 0 < n < |path[1..]| && PathValue(under, path[1..][..n]).Some?
                && !PathValue(under, path[1..][..n]).value.Table?;
        assert PathValue(table, path[..n + 1]) == PathValue(under, path[1..][..n]);
      }
      if path[0] !in table {
        NothingUnderEmpty(path[1..], value);
        forall n | 0 < n < |path| ensures PathValue(table, path[..n]).None? {
          assert path[..n][0] == path[0];
        }
      }
    }
  }

  lemma {:induction false} NothingUnderEmpty(path: Path, value: Value)
    requires path != []
    ensures SetPath(map[], path, value).Some?
    decreases |path|
  {
    if |path| > 1 {
      NothingUnderEmpty(path[1..], value);
    }
  }

  /** A successful removal leaves nothing at the path and disturbs no path that runs apart from it. */
  lemma {:induction false} RemoveThenGet(table: Table, path: Path, other: Path)
    requires RemovePath(table, path).Some?
    ensures PathValue(RemovePath(table, path).value, path).None?
    ensures Apart(path, other) ==> PathValue(RemovePath(table, path).value, other) == PathValue(table, other)
    decreases |path|
  {
    if |path| > 1 && path[0] in table {
      RemoveThenGet(table[path[0]].table, path[1..], if other == [] then [] else other[1..]);
      var nested := RemovePath(table[path[0]].table, path[1..]).value;
      if Apart(path, other) && other[0] == path[0] {
        ApartTail(path, other);
        assert |other| > 1;
        assert PathValue(table, other) == PathValue(table[path[0]].table, other[1..]);
        if PathValue(table, other).Some? {
          assert PathValue(nested, other[1..]).Some?;
        }
      }
    }
  }

  /**
   Of the tables on the way, exactly those go that hold nothing but the removed path; each of the
   others stays with the rest of the path removed from it.
   */
  lemma {:induction false} RemovePrunes(table: Table, path: Path, n: nat)
    requires RemovePath(table, path).Some? && 0 < n < |path| && PathValue(table, path[..n]).Some?
    ensures PathValue(table, path[..n]).value.Table?
    ensures var rest := RemovePath(PathValue(table, path[..n]).value.table, path[n..]);
            && rest.Some?
            && PathValue(RemovePath(table, path).value, path[..n])
               == if rest.value == map[] then None else Some(Table(rest.value))
    decreases |path|
  {
    var under := table[path[0]].table;
    assert path[..n][0] == path[0];
    if n > 1 {
      assert path[..n][1..] == path[1..][..n - 1] && path[1..][n - 1..] == path[n..];
      RemovePrunes(under, path[1..], n - 1);
    }
  }

  /** The layer holds nothing at the path, above it or below it. */
  predicate Untouched(layer: Table, path: Path)
    decreases |path|
  {
    path == [] || path[0] !in layer
    || (|path| > 1 && layer[path[0]].Table? && Untouched(layer[path[0]].table, path[1..]))
  }

  lemma {:induction false} UntouchedHoldsNothing(layer: Table, path: Path)
    requires Untouched(layer, path)
    ensures PathValue(layer, path).None?
    decreases |path|
  {
    if |path| > 1 && path[0] in layer {
      UntouchedHoldsNothing(layer[path[0]].table, path[1..]);
    }
  }

  /** Merging a layer over a table leaves alone every path the layer does not touch. */
  lemma {:induction false} MergeLeavesUntouched(under: Table, layer: Table, path: Path)
    requires Untouched(layer, path)
    ensures PathValue(Merge(under, layer), path) == PathValue(under, path)
    decreases |path|
  {
    if |path| > 1 && path[0] in layer {
      UntouchedHoldsNothing(layer[path[0]].table, path[1..]);
      if path[0] in under && under[path[0]].Table? {
        MergeLeavesUntouched(under[path[0]].table, layer[path[0]].table, path[1..]);
      }
    }
  }

  lemma {:induction false} UntouchedMerged(a: Table, b: Table, path: Path)
    requires Untouched(a, path) && Untouched(b, path)
    ensures Untouched(Merge(a, b), path)
    decreases |path|
  {
    if |path| > 1 && path[0] in a && path[0] in b {
      UntouchedMerged(a[path[0]].table, b[path[0]].table, path[1..]);
    }
  }

  lemma {:induction false} RemoveLeavesUntouched(table: Table, path: Path)
    requires RemovePath(table, path).Some?
    ensures Untouched(RemovePath(table, path).value, path)
    decreases |path|
  {
    if |path| > 1 && path[0] in table {
      RemoveLeavesUntouched(table[path[0]].table, path[1..]);
    }
  }

  /** A plain value of the upper layer wins over whatever is below. */
  lemma {:induction false} MergeKeepsPlain(under: Table, layer: Table, path: Path)
    requires PathValue(layer, path).Some? && !PathValue(layer, path).value.Table?
    ensures PathValue(Merge(under, layer), path) == PathValue(layer, path)
    decreases |path|
  {
    if |path| > 1 && path[0] in under && under[path[0]].Table? {
      MergeKeepsPlain(under[path[0]].table, layer[path[0]].table, path[1..]);
    }
  }

  // ---------- types ----------

  /** Same TOML type, whatever the content. */
  predicate SameType(a: Value, b: Value) {
    match a
    case String(_) => b.String?
    case Integer(_) => b.Integer?
    case Boolean(_) => b.Boolean?
    case Table(_) => b.Table?
    case Other(kind, _) => b.Other? && b.kind == kind
  }

  /** Every value present has the type of its default, in nested tables too. */
  predicate TypesMatch(values: Table, defaults: Table)
    decreases Table(defaults)
  {
    forall k | k in defaults :: k in values ==>
      && SameType(values[k], defaults[k])
      && (values[k].Table? && defaults[k].Table? ==> TypesMatch(values[k].table, defaults[k].table))
  }
}
