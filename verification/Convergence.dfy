/**
 What one undisturbed migration achieves (migration.go:157-222, 360-450, 493-618): the
 table ends in step with the declaration, and on the way it holds more rather than less.
 */
module Convergence {
  import opened Wrappers
  import opened Schema
  import opened Diff
  import opened Migration

  // ---- The columns a plan leaves ----

  /** A change as AppendNewColumns (ignored = {}) and SyncAllColumns plan it, drops aside. */
  predicate PlannedFor(want: seq<Field>, got: seq<Field>, ignored: set<string>, change: SchemaChange) {
    var diff := WithoutNames(DiffOf(want, got), ignored);
    && !change.createTable && change.addColumns == diff.added && change.relaxColumns == diff.relaxed
    && diff.conflicts == []
    && (change.dropColumns == diff.removed || change.dropColumns == [])
  }

  lemma AddedColumns(want: seq<Field>, got: seq<Field>, ignored: set<string>)
    requires Distinct(want)
    ensures
      var added := FieldsOutside(FieldsOutside(want, ByName(got).Keys), ignored);
      && Distinct(added)
      && (forall f :: f in added <==> f in want && f.name !in Names(got) && f.name !in ignored)
  {
    ByNameKeys(got);
    InFieldsOutside(want, ByName(got).Keys);
    InFieldsOutside(FieldsOutside(want, ByName(got).Keys), ignored);
  }

  lemma RelaxedNames(want: seq<Field>, got: seq<Field>, ignored: set<string>, name: string)
    requires Distinct(want)
    ensures name in ToSet(NamesOutside(Relaxed(want, ByName(got)), ignored))
       <==> name !in ignored && exists w :: w in want && w.name == name && NeedsRelaxing(w, ByName(got))
  {
    var relaxed := NamesOutside(Relaxed(want, ByName(got)), ignored);
    InNamesOutside(Relaxed(want, ByName(got)), ignored);
    InRelaxed(want, ByName(got), name);
    assert name in ToSet(relaxed) <==> name in relaxed;
  }

  lemma MergedDistinct(want: seq<Field>, got: seq<Field>, ignored: set<string>, change: SchemaChange)
    requires Distinct(want) && Distinct(got) && change.addColumns == WithoutNames(DiffOf(want, got), ignored).added
    ensures Distinct(Merge(got, change))
  {
    AddedColumns(want, got, ignored);
    RelaxedDistinct(got, ToSet(change.relaxColumns));
    forall f, h | f in RelaxFields(got, ToSet(change.relaxColumns)) && h in change.addColumns ensures f.name != h.name {
      assert f.name in Names(got);
    }
    DistinctAppend(RelaxFields(got, ToSet(change.relaxColumns)), change.addColumns);
  }

  lemma RelaxedDistinct(got: seq<Field>, relax: set<string>)
    requires Distinct(got)
    ensures Distinct(RelaxFields(got, relax))
    ensures forall f :: f in RelaxFields(got, relax) ==> f.name in Names(got)
  {
  }

  lemma DistinctAppend(a: seq<Field>, b: seq<Field>)
    requires Distinct(a) && Distinct(b) && forall f, h | f in a && h in b :: f.name != h.name
    ensures Distinct(a + b)
  {
  }

  /** The merged schema: every table column in its place, then the added ones. */
  lemma MergedColumns(want: seq<Field>, got: seq<Field>, ignored: set<string>, change: SchemaChange)
    requires RecDistinct(want) && Distinct(got) && PlannedFor(want, got, ignored, change)
    ensures Distinct(Merge(got, change))
    ensures
      forall i | 0 <= i < |got| ::
        && got[i].name in ByName(Merge(got, change))
        && ByName(Merge(got, change))[got[i].name] == RelaxField(got[i], ToSet(change.relaxColumns))
    ensures
      forall w :: w in change.addColumns ==>
        w.name in ByName(Merge(got, change)) && ByName(Merge(got, change))[w.name] == w
  {
    MergedDistinct(want, got, ignored, change);
    OldColumnsFound(got, change);
    AddedColumnsFound(got, change);
  }

  lemma OldColumnsFound(got: seq<Field>, change: SchemaChange)
    requires Distinct(Merge(got, change))
    ensures
      forall i | 0 <= i < |got| ::
        && got[i].name in ByName(Merge(got, change))
        && ByName(Merge(got, change))[got[i].name] == RelaxField(got[i], ToSet(change.relaxColumns))
  {
    var next := Merge(got, change);
    forall i | 0 <= i < |got|
      ensures got[i].name in ByName(next) && ByName(next)[got[i].name] == RelaxField(got[i], ToSet(change.relaxColumns))
    {
      ByNameAt(next, i);
    }
  }

  lemma AddedColumnsFound(got: seq<Field>, change: SchemaChange)
    requires Distinct(Merge(got, change))
    ensures
      forall w :: w in change.addColumns ==>
        w.name in ByName(Merge(got, change)) && ByName(Merge(got, change))[w.name] == w
  {
    var next := Merge(got, change);
    forall w | w in change.addColumns ensures w.name in ByName(next) && ByName(next)[w.name] == w {
      var i :| 0 <= i < |change.addColumns| && change.addColumns[i] == w;
      ByNameAt(next, |got| + i);
    }
  }

  lemma MergedNames(got: seq<Field>, change: SchemaChange)
    ensures Names(Merge(got, change)) == Names(got) + Names(change.addColumns)
  {
    var next := Merge(got, change);
    forall x ensures x in Names(next) <==> x in Names(got) + Names(change.addColumns) {
      if x in Names(next) {
        var i :| 0 <= i < |next| && next[i].name == x;
        if i < |got| {
          assert got[i].name == x;
        } else {
          assert change.addColumns[i - |got|].name == x;
        }
      }
      if x in Names(got) {
        var i :| 0 <= i < |got| && got[i].name == x;
        assert next[i].name == x;
      }
      if x in Names(change.addColumns) {
        var i :| 0 <= i < |change.addColumns| && change.addColumns[i].name == x;
        assert next[|got| + i].name == x;
      }
    }
  }

  lemma NoWantedConflict(want: seq<Field>, got: seq<Field>, ignored: set<string>, w: Field)
    requires WithoutNames(DiffOf(want, got), ignored).conflicts == []
    requires w in want && w.name !in ignored && w.name in ByName(got)
    ensures ConflictBetween(w, ByName(got)[w.name]).None?
  {
    if ConflictBetween(w, ByName(got)[w.name]).Some? {
      var c := ConflictOf(w, ByName(got))[0];
      InConflicts(want, ByName(got), c);
      InConflictsOutside(Conflicts(want, ByName(got)), ignored, c);
      assert false;
    }
  }

  lemma {:induction false} InConflictsOutside(conflicts: seq<SchemaConflict>, names: set<string>, c: SchemaConflict)
    ensures c in ConflictsOutside(conflicts, names) <==> c in conflicts && c.name !in names
  {
    if conflicts != [] {
      InConflictsOutside(conflicts[..|conflicts| - 1], names, c);
      assert conflicts == conflicts[..|conflicts| - 1] + [conflicts[|conflicts| - 1]];
    }
  }

  lemma MergedAgreesWithOld(want: seq<Field>, got: seq<Field>, ignored: set<string>, change: SchemaChange, w: Field)
    requires RecDistinct(want) && Distinct(got) && PlannedFor(want, got, ignored, change)
    requires w in want && w.name !in ignored && w.name in Names(got)
    ensures Agrees(w, ByName(Merge(got, change)))
  {
    MergedColumns(want, got, ignored, change);
    var j :| 0 <= j < |got| && got[j].name == w.name;
    ByNameAt(got, j);
    NoWantedConflict(want, got, ignored, w);
    RelaxedNames(want, got, ignored, w.name);
    forall v | v in want && v.name == w.name ensures v == w {
      SameName(want, v, w);
    }
  }

  /** After the patch every managed declared column agrees with the table. */
  lemma MergedAgrees(want: seq<Field>, got: seq<Field>, ignored: set<string>, change: SchemaChange, w: Field)
    requires RecDistinct(want) && Distinct(got) && PlannedFor(want, got, ignored, change)
    requires RequiredNames(change.addColumns) == []
    requires w in want && w.name !in ignored
    ensures Agrees(w, ByName(Merge(got, change)))
  {
    if w.name in Names(got) {
      MergedAgreesWithOld(want, got, ignored, change, w);
    } else {
      MergedColumns(want, got, ignored, change);
      AddedColumns(want, got, ignored);
      assert w in change.addColumns;
      NotRequired(change.addColumns, w);
      if w.typ == RecordField {
        SameNestedReflexive(w.nested);
      }
    }
  }

  lemma {:induction false} NotRequired(fields: seq<Field>, f: Field)
    requires RequiredNames(fields) == [] && f in fields
    ensures !f.required
  {
    var n := |fields| - 1;
    if f != fields[n] {
      assert f in fields[..n];
      NotRequired(fields[..n], f);
    }
  }

  // ---- Empty diffs ----

  lemma {:induction false} NothingInConflictsOutside(conflicts: seq<SchemaConflict>, names: set<string>)
    requires forall c :: c in conflicts ==> c.name in names
    ensures ConflictsOutside(conflicts, names) == []
  {
    if conflicts != [] {
      assert conflicts == conflicts[..|conflicts| - 1] + [conflicts[|conflicts| - 1]];
      NothingInConflictsOutside(conflicts[..|conflicts| - 1], names);
    }
  }

  lemma FirstIsIn<T>(s: seq<T>)
    ensures s == [] || s[0] in s
  {
  }

  lemma NothingInNamesOutside(list: seq<string>, names: set<string>)
    requires forall x :: x in list ==> x in names
    ensures NamesOutside(list, names) == []
  {
    InNamesOutside(list, names);
    FirstIsIn(NamesOutside(list, names));
  }

  /** Managed declared columns agree: then nothing managed is added, relaxed or in conflict. */
  lemma AgreementLeavesNothing(want: seq<Field>, now: seq<Field>, ignored: set<string>)
    requires Distinct(want)
    requires forall w :: w in want && w.name !in ignored ==> Agrees(w, ByName(now))
    ensures
      var d := WithoutNames(DiffOf(want, now), ignored);
      d.added == [] && d.relaxed == [] && d.conflicts == []
  {
    var t := ByName(now);
    InFieldsOutside(want, t.Keys);
    NoneOutside(FieldsOutside(want, t.Keys), ignored);
    forall x | x in Relaxed(want, t) ensures x in ignored {
      InRelaxed(want, t, x);
    }
    NothingInNamesOutside(Relaxed(want, t), ignored);
    forall c | c in Conflicts(want, t) ensures c.name in ignored {
      InConflicts(want, t, c);
    }
    NothingInConflictsOutside(Conflicts(want, t), ignored);
  }

  // ---- What apply leaves behind ----

  lemma RelaxNothing(got: seq<Field>)
    ensures RelaxFields(got, {}) == got
  {
  }

  lemma MergeNothing(got: seq<Field>, change: SchemaChange)
    requires change.addColumns == [] && change.relaxColumns == []
    ensures Merge(got, change) == got
  {
    assert ToSet([]) == {};
    RelaxNothing(got);
  }

  /** When apply succeeds the table holds the merged schema less the dropped columns. */
  lemma AppliedSchema(got: seq<Field>, change: SchemaChange, faults: Faults)
    requires !change.createTable && ApplyOf(got, change, faults).error.None?
    ensures Latest(got, ApplyOf(got, change, faults).states)
         == FieldsOutside(Merge(got, change), ToSet(change.dropColumns))
    ensures RequiredNames(change.addColumns) == []
  {
    if !change.Empty() {
      PatchedSchema(got, change, faults);
    } else {
      MergeNothing(got, change);
    }
    if change.dropColumns == [] {
      assert ToSet([]) == {};
      AllFieldsOutside(Merge(got, change));
    }
  }

  lemma PatchedSchema(got: seq<Field>, change: SchemaChange, faults: Faults)
    requires PatchOf(got, change, faults).error.None?
    ensures Latest(got, PatchOf(got, change, faults).states) == Merge(got, change)
    ensures RequiredNames(change.addColumns) == []
  {
    if change.addColumns == [] && change.relaxColumns == [] {
      MergeNothing(got, change);
    }
  }

  /** Dropping names that are neither declared nor ignored leaves the other columns as they are. */
  lemma DropKeeps(now: seq<Field>, names: set<string>, name: string)
    requires Distinct(now) && name !in names
    ensures name in ByName(FieldsOutside(now, names)) <==> name in ByName(now)
    ensures name in ByName(now) ==> ByName(FieldsOutside(now, names))[name] == ByName(now)[name]
  {
    var kept := FieldsOutside(now, names);
    InFieldsOutside(now, names);
    ByNameKeys(now);
    ByNameKeys(kept);
    if name in ByName(now) {
      ByNameMember(now, name);
      var f := ByName(now)[name];
      var i :| 0 <= i < |kept| && kept[i] == f;
      ByNameAt(kept, i);
    }
    if name in ByName(kept) {
      ByNameMember(kept, name);
      var f := ByName(kept)[name];
      var i :| 0 <= i < |now| && now[i] == f;
      assert now[i].name in Names(now);
    }
  }

  lemma RemovedNames(want: seq<Field>, got: seq<Field>, ignored: set<string>)
    ensures forall x :: x in ToSet(WithoutNames(DiffOf(want, got), ignored).removed)
                   <==> x in Names(got) && x !in Names(want) && x !in ignored
  {
    InNameList(got);
    InNamesOutside(NameList(got), Names(want));
    InNamesOutside(NamesOutside(NameList(got), Names(want)), ignored);
    var removed := WithoutNames(DiffOf(want, got), ignored).removed;
    assert forall x :: x in ToSet(removed) <==> x in removed;
  }

  lemma {:induction false} OutsideAppend(a: seq<string>, b: seq<string>, names: set<string>)
    ensures NamesOutside(a + b, names) == NamesOutside(a, names) + NamesOutside(b, names)
  {
    if b == [] {
      assert a + b == a;
    } else {
      assert (a + b)[..|a + b| - 1] == a + b[..|b| - 1];
      OutsideAppend(a, b[..|b| - 1], names);
    }
  }

  lemma AddedAreDeclared(want: seq<Field>, got: seq<Field>, ignored: set<string>)
    requires Distinct(want)
    ensures Names(WithoutNames(DiffOf(want, got), ignored).added) <= Names(want)
  {
    AddedColumns(want, got, ignored);
    var added := WithoutNames(DiffOf(want, got), ignored).added;
    forall x | x in Names(added) ensures x in Names(want) {
      var i :| 0 <= i < |added| && added[i].name == x;
      assert added[i] in added;
      var k :| 0 <= k < |want| && want[k] == added[i];
    }
  }

  lemma MergedNameList(got: seq<Field>, change: SchemaChange)
    ensures NameList(Merge(got, change)) == NameList(got) + NameList(change.addColumns)
  {
  }

  lemma DeclaredNotListed(fields: seq<Field>, names: set<string>)
    requires Names(fields) <= names
    ensures NamesOutside(NameList(fields), names) == []
  {
    InNameList(fields);
    NothingInNamesOutside(NameList(fields), names);
  }

  /** The patch changes nothing about which table columns are undeclared. */
  lemma MergeKeepsRemoved(want: seq<Field>, got: seq<Field>, ignored: set<string>, change: SchemaChange)
    requires Distinct(want) && change.addColumns == WithoutNames(DiffOf(want, got), ignored).added
    ensures DiffOf(want, Merge(got, change)).removed == DiffOf(want, got).removed
  {
    MergedNameList(got, change);
    AddedAreDeclared(want, got, ignored);
    DeclaredNotListed(change.addColumns, Names(want));
    OutsideAppend(NameList(got), NameList(change.addColumns), Names(want));
  }

  // ---- Convergence ----

  /**
   SyncAllColumns: when the migration reports success, nothing managed differs any more and
   planning again asks for nothing.
   */
  lemma SyncConverges(want: seq<Field>, got: seq<Field>, ignore: seq<string>, create: bool, faults: Faults)
    requires RecDistinct(want) && Distinct(got)
    requires MigrateOf(want, SyncAllColumns(ignore, create), Some(got), faults).error.None?
    ensures
      var after := Latest(got, MigrateOf(want, SyncAllColumns(ignore, create), Some(got), faults).states);
      && WithoutNames(DiffOf(want, after), ToSet(ignore)).Empty()
      && Plan(SyncAllColumns(ignore, create), Existing(want, after)) == Ok(NO_CHANGE)
  {
    var ignored := ToSet(ignore);
    var change := Plan(SyncAllColumns(ignore, create), Existing(want, got)).value;
    AppliedSchema(got, change, faults);
    var next := Merge(got, change);
    var dropped := ToSet(change.dropColumns);
    var after := FieldsOutside(next, dropped);
    MergedColumns(want, got, ignored, change);
    RemovedNames(want, got, ignored);
    forall w | w in want && w.name !in ignored ensures Agrees(w, ByName(after)) {
      MergedAgrees(want, got, ignored, change, w);
      var k :| 0 <= k < |want| && want[k] == w;
      assert w.name in Names(want);
      DropKeeps(next, dropped, w.name);
    }
    AgreementLeavesNothing(want, after, ignored);
    RemovedNames(want, after, ignored);
    NothingLeftToDrop(want, got, ignored, change);
    var removed := WithoutNames(DiffOf(want, after), ignored).removed;
    assert forall x :: x in removed ==> x in ToSet(removed);
    FirstIsIn(removed);
  }

  lemma NothingLeftToDrop(want: seq<Field>, got: seq<Field>, ignored: set<string>, change: SchemaChange)
    requires RecDistinct(want) && Distinct(got) && PlannedFor(want, got, ignored, change)
    requires change.dropColumns == WithoutNames(DiffOf(want, got), ignored).removed
    ensures Names(FieldsOutside(Merge(got, change), ToSet(change.dropColumns))) <= Names(want) + ignored
  {
    var next, dropped := Merge(got, change), ToSet(change.dropColumns);
    MergedNames(got, change);
    RemovedNames(want, got, ignored);
    AddedAreDeclared(want, got, ignored);
    NamesAfterDrop(next, dropped);
  }

  lemma NamesAfterDrop(now: seq<Field>, names: set<string>)
    ensures Names(FieldsOutside(now, names)) == Names(now) - names
  {
    InFieldsOutside(now, names);
    var after := FieldsOutside(now, names);
    forall x ensures x in Names(after) <==> x in Names(now) - names {
      if x in Names(after) {
        var i :| 0 <= i < |after| && after[i].name == x;
        assert after[i] in after;
        var k :| 0 <= k < |now| && now[k] == after[i];
      }
      if x in Names(now) - names {
        var k :| 0 <= k < |now| && now[k].name == x;
        assert now[k] in after;
        var i :| 0 <= i < |after| && after[i] == now[k];
      }
    }
  }

  /** AppendNewColumns: on success only undeclared columns differ, and they are the ones that did before. */
  lemma AppendConverges(want: seq<Field>, got: seq<Field>, create: bool, faults: Faults)
    requires RecDistinct(want) && Distinct(got)
    requires MigrateOf(want, AppendNewColumns(create), Some(got), faults).error.None?
    ensures
      var after := Latest(got, MigrateOf(want, AppendNewColumns(create), Some(got), faults).states);
      && DiffOf(want, after) == SchemaDiff([], DiffOf(want, got).removed, [], [])
      && Plan(AppendNewColumns(create), Existing(want, after)) == Ok(NO_CHANGE)
  {
    var change := Plan(AppendNewColumns(create), Existing(want, got)).value;
    NothingIgnored(DiffOf(want, got));
    AppliedSchema(got, change, faults);
    assert ToSet(change.dropColumns) == {};
    AllFieldsOutside(Merge(got, change));
    MergedLeavesOnlyDrops(want, got, {}, change);
    NothingIgnored(DiffOf(want, Merge(got, change)));
  }

  /** A table just created is in step with the declaration. */
  lemma CreateConverges(want: seq<Field>, strategy: Strategy, faults: Faults)
    requires RecDistinct(want) && MigrateOf(want, strategy, None, faults).error.None?
    ensures MigrateOf(want, strategy, None, faults).states == [want]
    ensures DiffOf(want, want).Empty()
  {
    SameNestedReflexive(want);
    SameNestedIsSameUpToOrder(want, want);
    EmptyExactlyWhenSame(want, want);
  }

  /** w is no obstacle: it does not conflict with the table, and is not a REQUIRED column the table lacks. */
  predicate NoObstacle(w: Field, table: map<string, Field>) {
    if w.name in table then ConflictBetween(w, table[w.name]).None? else !w.required
  }

  lemma AppendSucceedsWhenPlanned(want: seq<Field>, got: seq<Field>, create: bool)
    requires Distinct(want)
    ensures MigrateOf(want, AppendNewColumns(create), Some(got), Faults(None, None, None, None)).error.None?
       <==> Conflicts(want, ByName(got)) == [] && RequiredNames(FieldsOutside(want, ByName(got).Keys)) == []
  {
  }

  lemma NothingRequiredAdded(want: seq<Field>, table: map<string, Field>)
    ensures RequiredNames(FieldsOutside(want, table.Keys)) == []
       <==> forall w :: w in want && w.name !in table ==> !w.required
  {
    InFieldsOutside(want, table.Keys);
    NoneRequired(FieldsOutside(want, table.Keys));
  }

  /**
   With no API failure, AppendNewColumns succeeds exactly when no declared column conflicts
   with the table and none that the table lacks is REQUIRED.
   */
  lemma AppendSucceedsExactlyWhen(want: seq<Field>, got: seq<Field>, create: bool)
    requires Distinct(want)
    ensures MigrateOf(want, AppendNewColumns(create), Some(got), Faults(None, None, None, None)).error.None?
       <==> forall w :: w in want ==> NoObstacle(w, ByName(got))
  {
    var t := ByName(got);
    AppendSucceedsWhenPlanned(want, got, create);
    NoConflicts(want, t);
    NothingRequiredAdded(want, t);
    forall w | w in want
      ensures NoObstacle(w, t) <==> ConflictOf(w, t) == [] && (w.name !in t ==> !w.required)
    {
    }
  }

  lemma {:induction false} NoBadName(names: seq<string>)
    ensures FirstBadName(names).None? <==> forall name :: name in names ==> ColumnNameOk(name)
  {
    if names != [] {
      NoBadName(names[1..]);
      assert names == [names[0]] + names[1..];
    }
  }

  lemma NoManagedConflict(want: seq<Field>, table: map<string, Field>, ignored: set<string>)
    ensures ConflictsOutside(Conflicts(want, table), ignored) == []
       <==> forall w :: w in want && w.name !in ignored && w.name in table ==> ConflictBetween(w, table[w.name]).None?
  {
    var conflicts := Conflicts(want, table);
    if ConflictsOutside(conflicts, ignored) == [] {
      forall w | w in want && w.name !in ignored && w.name in table ensures ConflictBetween(w, table[w.name]).None? {
        if ConflictBetween(w, table[w.name]).Some? {
          var c := SchemaConflict(w.name, ConflictBetween(w, table[w.name]).value, w, table[w.name]);
          assert c in ConflictOf(w, table);
          InConflicts(want, table, c);
          InConflictsOutside(conflicts, ignored, c);
        }
      }
    }
    if forall w :: w in want && w.name !in ignored && w.name in table ==> ConflictBetween(w, table[w.name]).None? {
      forall c | c in conflicts ensures c.name in ignored {
        InConflicts(want, table, c);
      }
      NothingInConflictsOutside(conflicts, ignored);
    }
  }

  lemma SyncSucceedsWhenPlanned(want: seq<Field>, got: seq<Field>, ignore: seq<string>, create: bool)
    ensures
      var diff := WithoutNames(DiffOf(want, got), ToSet(ignore));
      MigrateOf(want, SyncAllColumns(ignore, create), Some(got), Faults(None, None, None, None)).error.None?
      <==> diff.conflicts == [] && RequiredNames(diff.added) == [] && FirstBadName(diff.removed).None?
  {
  }

  /**
   With no API failure, SyncAllColumns succeeds exactly when no declared column outside the
   ignored ones conflicts with the table or is a REQUIRED one it lacks, and every column it
   has to drop has a name that can be put in the statement.
   */
  lemma SyncSucceedsExactlyWhen(want: seq<Field>, got: seq<Field>, ignore: seq<string>, create: bool)
    requires Distinct(want)
    ensures MigrateOf(want, SyncAllColumns(ignore, create), Some(got), Faults(None, None, None, None)).error.None?
       <==> && (forall w :: w in want && w.name !in ignore ==> NoObstacle(w, ByName(got)))
            && (forall name :: name in Names(got) && name !in Names(want) && name !in ignore ==> ColumnNameOk(name))
  {
    var ignored, t := ToSet(ignore), ByName(got);
    var diff := WithoutNames(DiffOf(want, got), ignored);
    SyncSucceedsWhenPlanned(want, got, ignore, create);
    NoManagedConflict(want, t, ignored);
    AddedColumns(want, got, ignored);
    ByNameKeys(got);
    NoneRequired(diff.added);
    NoBadName(diff.removed);
    RemovedNames(want, got, ignored);
    assert forall name :: name in ignored <==> name in ignore;
    assert forall name :: name in diff.removed <==> name in ToSet(diff.removed);
  }

  lemma {:induction false} NoneRequired(fields: seq<Field>)
    ensures RequiredNames(fields) == [] <==> forall f :: f in fields ==> !f.required
  {
    if fields != [] {
      NoneRequired(fields[..|fields| - 1]);
      assert fields == fields[..|fields| - 1] + [fields[|fields| - 1]];
    }
  }

  // ---- More rather than less ----

  /**
   Whatever fails, in every schema the table passes through each column that was there and
   is declared or ignored is still there, and only columns neither declared nor ignored are
   ever asked to be dropped.
   */
  lemma MoreRatherThanLess(want: seq<Field>, got: seq<Field>, ignore: seq<string>, create: bool, faults: Faults)
    requires RecDistinct(want) && Distinct(got)
    ensures
      var done := MigrateOf(want, SyncAllColumns(ignore, create), Some(got), faults);
      forall k | 0 <= k < |done.states| ::
        Names(got) * (Names(want) + ToSet(ignore)) <= Names(done.states[k])
    ensures
      var plan := Plan(SyncAllColumns(ignore, create), Existing(want, got));
      plan.Ok? ==> forall x :: x in plan.value.dropColumns ==> x in Names(got) && x !in Names(want) && x !in ToSet(ignore)
  {
    var ignored := ToSet(ignore);
    var plan := Plan(SyncAllColumns(ignore, create), Existing(want, got));
    var done := MigrateOf(want, SyncAllColumns(ignore, create), Some(got), faults);
    if plan.Ok? {
      var change := plan.value;
      RemovedNames(want, got, ignored);
      assert forall x :: x in change.dropColumns ==> x in ToSet(change.dropColumns);
      MergedNames(got, change);
      NamesAfterDrop(Merge(got, change), ToSet(change.dropColumns));
      forall k | 0 <= k < |done.states| ensures Names(got) * (Names(want) + ignored) <= Names(done.states[k]) {
        StatesOnTheWay(got, change, faults, k);
      }
    }
  }

  lemma StatesOnTheWay(got: seq<Field>, change: SchemaChange, faults: Faults, k: nat)
    requires k < |ApplyOf(got, change, faults).states|
    ensures
      var state := ApplyOf(got, change, faults).states[k];
      state == Merge(got, change) || state == FieldsOutside(Merge(got, change), ToSet(change.dropColumns))
  {
    if change.addColumns == [] && change.relaxColumns == [] {
      MergeNothing(got, change);
    }
  }

  lemma MergedLeavesOnlyDrops(want: seq<Field>, got: seq<Field>, ignored: set<string>, change: SchemaChange)
    requires RecDistinct(want) && Distinct(got) && PlannedFor(want, got, ignored, change)
    requires RequiredNames(change.addColumns) == []
    ensures WithoutNames(DiffOf(want, Merge(got, change)), ignored)
         == SchemaDiff([], WithoutNames(DiffOf(want, got), ignored).removed, [], [])
  {
    var next := Merge(got, change);
    forall w | w in want && w.name !in ignored ensures Agrees(w, ByName(next)) {
      MergedAgrees(want, got, ignored, change, w);
    }
    AgreementLeavesNothing(want, next, ignored);
    MergeKeepsRemoved(want, got, ignored, change);
  }

  /** A failure between the patch and the drop: running again plans the same drops and nothing else. */
  lemma RerunPlansTheSameDrops(want: seq<Field>, got: seq<Field>, ignore: seq<string>, create: bool, faults: Faults)
    requires RecDistinct(want) && Distinct(got)
    requires
      var plan := Plan(SyncAllColumns(ignore, create), Existing(want, got));
      plan.Ok? && PatchOf(got, plan.value, faults).error.None?
    ensures
      var change := Plan(SyncAllColumns(ignore, create), Existing(want, got)).value;
      var between := Latest(got, PatchOf(got, change, faults).states);
      Plan(SyncAllColumns(ignore, create), Existing(want, between))
        == Ok(SchemaChange(false, [], [], change.dropColumns))
  {
    var ignored := ToSet(ignore);
    var change := Plan(SyncAllColumns(ignore, create), Existing(want, got)).value;
    PatchedSchema(got, change, faults);
    MergedLeavesOnlyDrops(want, got, ignored, change);
  }
}
