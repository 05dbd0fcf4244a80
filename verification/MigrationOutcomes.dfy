/**
 What one migration leaves the table as (migration.go:331-450, 493-538), told from the
 declaration, the table and the strategy alone: who touches the table at all, when a missing
 one is created, and every column of the result in its place.
 */
module MigrationOutcomes {
  import opened Wrappers
  import opened Schema
  import opened Diff
  import opened Migration
  import opened Convergence

  // ---- A table that is left alone, and one that is missing ----

  /**
   MigrationNone writes to no table it can read, whatever fails, and succeeds exactly when the
   table is read and no declared column conflicts with it.
   */
  lemma NoneSucceedsExactlyWhen(want: seq<Field>, create: bool, got: seq<Field>, faults: Faults)
    requires faults.read != Some(NotFound)
    ensures MigrateOf(want, MigrationNone(create), Some(got), faults).states == []
    ensures MigrateOf(want, MigrationNone(create), Some(got), faults).error.None?
       <==> && faults.read.None?
            && forall w :: w in want && w.name in ByName(got) ==> ConflictBetween(w, ByName(got)[w.name]).None?
  {
    NoConflicts(want, ByName(got));
    forall w | w in want
      ensures ConflictOf(w, ByName(got)) == []
         <==> (w.name in ByName(got) ==> ConflictBetween(w, ByName(got)[w.name]).None?)
    {
    }
  }

  /** The flag each strategy carries. */
  predicate CreatesMissing(strategy: Strategy) {
    match strategy
    case MigrationNone(create) => create
    case AppendNewColumns(create) => create
    case SyncAllColumns(_, create) => create
  }

  /**
   Of a table that reads as missing, whatever fails, nothing but the declaration is ever
   written, and that exactly when the strategy says so, nothing refuses the creation and the
   table is missing indeed; without the strategy's leave the table is reported missing.
   */
  lemma CreatedExactlyWhen(want: seq<Field>, strategy: Strategy, table: Option<seq<Field>>, faults: Faults)
    requires faults.read == Some(NotFound) || (faults.read.None? && table.None?)
    ensures
      var done := MigrateOf(want, strategy, table, faults);
      var created := CreatesMissing(strategy) && faults.create.None? && table.None?;
      done.states == (if created then [want] else []) && (done.error.None? <==> created)
    ensures !CreatesMissing(strategy) ==> MigrateOf(want, strategy, table, faults).error == Some(TableMissing)
  {
  }

  // ---- The columns of the result ----

  predicate Increasing(at: seq<nat>) {
    forall a, b | 0 <= a < b < |at| :: at[a] < at[b]
  }

  /** at lists, in order, the positions of fields whose names are not among names. */
  predicate Positions(fields: seq<Field>, names: set<string>, at: seq<nat>) {
    && Increasing(at)
    && (forall j | 0 <= j < |at| :: at[j] < |fields|)
    && (forall k: nat | k < |fields| :: k in at <==> fields[k].name !in names)
  }

  lemma OneMorePosition(fields: seq<Field>, names: set<string>, before: seq<nat>, at: seq<nat>)
    requires fields != [] && Positions(fields[..|fields| - 1], names, before)
    requires at == if fields[|fields| - 1].name in names then before else before + [|fields| - 1]
    ensures Positions(fields, names, at)
  {
    var n := |fields| - 1;
    forall k: nat | k < |fields| ensures k in at <==> fields[k].name !in names {
      if k < n {
        assert fields[..n][k] == fields[k];
        assert k in before <==> fields[..n][k].name !in names;
      }
    }
  }

  lemma {:induction false} OutsideInOrder(fields: seq<Field>, names: set<string>) returns (at: seq<nat>)
    ensures Positions(fields, names, at) && |at| == |FieldsOutside(fields, names)|
    ensures forall j | 0 <= j < |at| :: fields[at[j]] == FieldsOutside(fields, names)[j]
  {
    at := [];
    if fields != [] {
      var n := |fields| - 1;
      var before := OutsideInOrder(fields[..n], names);
      at := if fields[n].name in names then before else before + [n];
      OneMorePosition(fields, names, before, at);
    }
  }

  lemma {:induction false} OutsideBoth(a: seq<Field>, b: seq<Field>, names: set<string>)
    ensures FieldsOutside(a + b, names) == FieldsOutside(a, names) + FieldsOutside(b, names)
  {
    if b == [] {
      assert a + b == a;
    } else {
      assert (a + b)[..|a + b| - 1] == a + b[..|b| - 1];
      OutsideBoth(a, b[..|b| - 1], names);
    }
  }

  lemma {:induction false} OutsideTwice(fields: seq<Field>, names: set<string>, more: set<string>)
    ensures FieldsOutside(FieldsOutside(fields, names), more) == FieldsOutside(fields, names + more)
  {
    if fields != [] {
      var n := |fields| - 1;
      OutsideTwice(fields[..n], names, more);
      OutsideBoth(FieldsOutside(fields[..n], names), if fields[n].name in names then [] else [fields[n]], more);
    }
  }

  lemma {:induction false} NoneDropped(fields: seq<Field>, names: set<string>)
    requires forall i | 0 <= i < |fields| :: fields[i].name !in names
    ensures FieldsOutside(fields, names) == fields
  {
    if fields != [] {
      NoneDropped(fields[..|fields| - 1], names);
    }
  }

  /** Declared, not ignored, and not REQUIRED. */
  predicate DeclaredNullable(want: seq<Field>, ignored: set<string>, name: string) {
    name !in ignored && exists w :: w in want && w.name == name && !w.required
  }

  /** What becomes of a column the table has: only its mode may change, to NULLABLE. */
  function Settled(want: seq<Field>, ignored: set<string>, g: Field): Field {
    if DeclaredNullable(want, ignored, g.name) then g.(required := false) else g
  }

  lemma RelaxedIsSettled(want: seq<Field>, got: seq<Field>, ignored: set<string>, change: SchemaChange, i: nat)
    requires Distinct(want) && Distinct(got) && PlannedFor(want, got, ignored, change) && i < |got|
    ensures RelaxField(got[i], ToSet(change.relaxColumns)) == Settled(want, ignored, got[i])
  {
    var g, t := got[i], ByName(got);
    ByNameAt(got, i);
    RelaxedNames(want, got, ignored, g.name);
    if DeclaredNullable(want, ignored, g.name) {
      var w :| w in want && w.name == g.name && !w.required;
      NoWantedConflict(want, got, ignored, w);
      assert g.required ==> NeedsRelaxing(w, t);
    }
  }

  /** after: the table's columns not dropped, each settled, then the declared ones it lacks, both in their order. */
  predicate IsOutcome(want: seq<Field>, got: seq<Field>, ignored: set<string>, dropped: set<string>,
                      after: seq<Field>, kept: seq<nat>, added: seq<nat>)
  {
    && Positions(got, dropped, kept) && Positions(want, Names(got) + ignored, added)
    && |after| == |kept| + |added|
    && (forall j | 0 <= j < |kept| :: after[j] == Settled(want, ignored, got[kept[j]]))
    && (forall j | 0 <= j < |added| :: after[|kept| + j] == want[added[j]])
  }

  lemma AddedInOrder(want: seq<Field>, got: seq<Field>, ignored: set<string>) returns (added: seq<nat>)
    ensures
      var fields := WithoutNames(DiffOf(want, got), ignored).added;
      && Positions(want, Names(got) + ignored, added) && |added| == |fields|
      && forall j | 0 <= j < |added| :: want[added[j]] == fields[j]
  {
    ByNameKeys(got);
    OutsideTwice(want, Names(got), ignored);
    added := OutsideInOrder(want, Names(got) + ignored);
  }

  lemma KeptInOrder(want: seq<Field>, got: seq<Field>, ignored: set<string>, change: SchemaChange) returns (kept: seq<nat>)
    requires Distinct(want) && Distinct(got) && PlannedFor(want, got, ignored, change)
    ensures
      var fields := FieldsOutside(RelaxFields(got, ToSet(change.relaxColumns)), ToSet(change.dropColumns));
      && Positions(got, ToSet(change.dropColumns), kept) && |kept| == |fields|
      && forall j | 0 <= j < |kept| :: fields[j] == Settled(want, ignored, got[kept[j]])
  {
    var relaxed := RelaxFields(got, ToSet(change.relaxColumns));
    kept := OutsideInOrder(relaxed, ToSet(change.dropColumns));
    forall k: nat | k < |got| ensures k in kept <==> got[k].name !in ToSet(change.dropColumns) {
      assert relaxed[k].name == got[k].name;
    }
    forall j | 0 <= j < |kept| ensures relaxed[kept[j]] == Settled(want, ignored, got[kept[j]]) {
      RelaxedIsSettled(want, got, ignored, change, kept[j]);
    }
  }

  /** A drop is never of a column just added. */
  lemma AddedStay(want: seq<Field>, got: seq<Field>, ignored: set<string>, change: SchemaChange)
    requires Distinct(want) && PlannedFor(want, got, ignored, change)
    ensures FieldsOutside(change.addColumns, ToSet(change.dropColumns)) == change.addColumns
  {
    RemovedNames(want, got, ignored);
    AddedAreDeclared(want, got, ignored);
    assert ToSet([]) == {};
    forall i | 0 <= i < |change.addColumns| ensures change.addColumns[i].name !in ToSet(change.dropColumns) {
      assert change.addColumns[i].name in Names(change.addColumns);
    }
    NoneDropped(change.addColumns, ToSet(change.dropColumns));
  }

  lemma BothParts(want: seq<Field>, got: seq<Field>, ignored: set<string>, dropped: set<string>,
                  first: seq<Field>, second: seq<Field>, kept: seq<nat>, added: seq<nat>)
    requires Positions(got, dropped, kept) && Positions(want, Names(got) + ignored, added)
    requires |first| == |kept| && forall j | 0 <= j < |kept| :: first[j] == Settled(want, ignored, got[kept[j]])
    requires |second| == |added| && forall j | 0 <= j < |added| :: second[j] == want[added[j]]
    ensures IsOutcome(want, got, ignored, dropped, first + second, kept, added)
  {
  }

  lemma AppliedOutcome(want: seq<Field>, got: seq<Field>, ignored: set<string>, change: SchemaChange)
      returns (kept: seq<nat>, added: seq<nat>)
    requires Distinct(want) && Distinct(got) && PlannedFor(want, got, ignored, change)
    ensures IsOutcome(want, got, ignored, ToSet(change.dropColumns),
                      FieldsOutside(Merge(got, change), ToSet(change.dropColumns)), kept, added)
  {
    var dropped, relaxed := ToSet(change.dropColumns), RelaxFields(got, ToSet(change.relaxColumns));
    AddedStay(want, got, ignored, change);
    OutsideBoth(relaxed, change.addColumns, dropped);
    added := AddedInOrder(want, got, ignored);
    kept := KeptInOrder(want, got, ignored, change);
    BothParts(want, got, ignored, dropped, FieldsOutside(relaxed, dropped), change.addColumns, kept, added);
  }

  /**
   AppendNewColumns, when it succeeds: every column of the table in its place, NULLABLE where it
   is declared so, then the declared columns it lacks in the order they are declared.
   */
  lemma AppendOutcome(want: seq<Field>, got: seq<Field>, create: bool, faults: Faults)
      returns (after: seq<Field>, kept: seq<nat>, added: seq<nat>)
    requires Distinct(want) && Distinct(got)
    requires MigrateOf(want, AppendNewColumns(create), Some(got), faults).error.None?
    ensures after == Latest(got, MigrateOf(want, AppendNewColumns(create), Some(got), faults).states)
    ensures IsOutcome(want, got, {}, {}, after, kept, added)
  {
    var change := Plan(AppendNewColumns(create), Existing(want, got)).value;
    after := Latest(got, MigrateOf(want, AppendNewColumns(create), Some(got), faults).states);
    NothingIgnored(DiffOf(want, got));
    AppliedSchema(got, change, faults);
    assert ToSet([]) == {};
    kept, added := AppliedOutcome(want, got, {}, change);
  }

  /** What SyncAllColumns drops: the columns neither declared nor ignored. */
  function Undeclared(want: seq<Field>, got: seq<Field>, ignored: set<string>): set<string> {
    Names(got) - Names(want) - ignored
  }

  /** SyncAllColumns, when it succeeds: the same of the columns not ignored, less those not declared. */
  lemma SyncOutcome(want: seq<Field>, got: seq<Field>, ignore: seq<string>, create: bool, faults: Faults)
      returns (after: seq<Field>, kept: seq<nat>, added: seq<nat>)
    requires Distinct(want) && Distinct(got)
    requires MigrateOf(want, SyncAllColumns(ignore, create), Some(got), faults).error.None?
    ensures after == Latest(got, MigrateOf(want, SyncAllColumns(ignore, create), Some(got), faults).states)
    ensures IsOutcome(want, got, ToSet(ignore), Undeclared(want, got, ToSet(ignore)), after, kept, added)
  {
    var ignored := ToSet(ignore);
    var change := Plan(SyncAllColumns(ignore, create), Existing(want, got)).value;
    after := Latest(got, MigrateOf(want, SyncAllColumns(ignore, create), Some(got), faults).states);
    AppliedSchema(got, change, faults);
    RemovedNames(want, got, ignored);
    assert ToSet(change.dropColumns) == Undeclared(want, got, ignored);
    kept, added := AppliedOutcome(want, got, ignored, change);
  }

  /** AppendNewColumns writes once and last: when it fails it has written nothing. */
  lemma FailedAppend(want: seq<Field>, got: seq<Field>, create: bool, faults: Faults)
    requires MigrateOf(want, AppendNewColumns(create), Some(got), faults).error.Some?
    ensures MigrateOf(want, AppendNewColumns(create), Some(got), faults).states == []
  {
  }

  lemma FailedApply(got: seq<Field>, change: SchemaChange, faults: Faults)
    requires ApplyOf(got, change, faults).error.Some?
    ensures ApplyOf(got, change, faults).states == [] || ApplyOf(got, change, faults).states == [Merge(got, change)]
  {
  }

  /** When SyncAllColumns fails it has written nothing, or all of its additions and relaxations and no drop. */
  lemma FailedSync(want: seq<Field>, got: seq<Field>, ignore: seq<string>, create: bool, faults: Faults)
      returns (kept: seq<nat>, added: seq<nat>)
    requires Distinct(want) && Distinct(got)
    requires MigrateOf(want, SyncAllColumns(ignore, create), Some(got), faults).error.Some?
    ensures
      var states := MigrateOf(want, SyncAllColumns(ignore, create), Some(got), faults).states;
      states == [] || (|states| == 1 && IsOutcome(want, got, ToSet(ignore), {}, states[0], kept, added))
  {
    kept, added := [], [];
    var plan := Plan(SyncAllColumns(ignore, create), Existing(want, got));
    if faults.read.None? && plan.Ok? {
      FailedApply(got, plan.value, faults);
      kept, added := PatchedOutcome(want, got, ToSet(ignore), plan.value);
    }
  }

  lemma PatchedOutcome(want: seq<Field>, got: seq<Field>, ignored: set<string>, change: SchemaChange)
      returns (kept: seq<nat>, added: seq<nat>)
    requires Distinct(want) && Distinct(got) && PlannedFor(want, got, ignored, change)
    ensures IsOutcome(want, got, ignored, {}, Merge(got, change), kept, added)
  {
    var patch := change.(dropColumns := []);
    assert ToSet([]) == {};
    AllFieldsOutside(Merge(got, patch));
    kept, added := AppliedOutcome(want, got, ignored, patch);
  }

  // ---- Errors ----

  /** The error says what is the case. */
  predicate IsTrueError(error: MigrationError, want: seq<Field>, strategy: Strategy, table: Option<seq<Field>>, faults: Faults) {
    match error
    case TableMissing => !CreatesMissing(strategy) && (table.None? || faults.read == Some(NotFound))
    case Api(fault) =>
      || Some(fault) in {faults.read, faults.create, faults.update, faults.drop}
      || (fault == ConcurrentChange && faults.read == Some(NotFound) && table.Some?)
    case SchemaConflicts(conflicts) =>
      && table.Some? && conflicts != []
      && forall c :: c in conflicts ==>
           c.want in want && c.name == c.want.name && c.name in ByName(table.value)
           && c.got == ByName(table.value)[c.name] && IsReason(c.reason, c.want, c.got)
    case AddsRequired(names) =>
      && table.Some? && names != []
      && forall name :: name in names ==> name !in Names(table.value) && exists w :: w in want && w.name == name && w.required
    case BadColumnName(name) =>
      table.Some? && !ColumnNameOk(name) && name in Names(table.value) && name !in Names(want)
  }

  lemma ConflictsAreTrue(want: seq<Field>, got: seq<Field>, c: SchemaConflict)
    requires c in Conflicts(want, ByName(got))
    ensures c.want in want && c.name == c.want.name && c.name in ByName(got)
    ensures c.got == ByName(got)[c.name] && IsReason(c.reason, c.want, c.got)
  {
    InConflicts(want, ByName(got), c);
    var w :| w in want && ConflictOf(w, ByName(got)) == [c];
    ConflictsExactlyWhen(w, ByName(got)[w.name]);
  }

  lemma PlanErrors(want: seq<Field>, strategy: Strategy, got: seq<Field>, faults: Faults)
    requires Plan(strategy, Existing(want, got)).Err?
    ensures IsTrueError(Plan(strategy, Existing(want, got)).error, want, strategy, Some(got), faults)
  {
    var conflicts := Plan(strategy, Existing(want, got)).error.conflicts;
    forall c | c in conflicts ensures c in Conflicts(want, ByName(got)) {
      if strategy.SyncAllColumns? {
        InConflictsOutside(Conflicts(want, ByName(got)), ToSet(strategy.ignoreColumns), c);
      }
    }
    forall c | c in conflicts
      ensures c.want in want && c.name == c.want.name && c.name in ByName(got)
      ensures c.got == ByName(got)[c.name] && IsReason(c.reason, c.want, c.got)
    {
      ConflictsAreTrue(want, got, c);
    }
  }

  lemma {:induction false} RequiredAre(fields: seq<Field>, name: string)
    requires name in RequiredNames(fields)
    ensures exists f :: f in fields && f.name == name && f.required
  {
    var n := |fields| - 1;
    if fields[n].required && fields[n].name == name {
      assert fields[n] in fields;
    } else {
      RequiredAre(fields[..n], name);
      var f :| f in fields[..n] && f.name == name && f.required;
      assert f in fields;
    }
  }

  lemma {:induction false} BadNameIs(names: seq<string>)
    requires FirstBadName(names).Some?
    ensures FirstBadName(names).value in names && !ColumnNameOk(FirstBadName(names).value)
  {
    if ColumnNameOk(names[0]) {
      BadNameIs(names[1..]);
    }
  }

  lemma PatchErrors(want: seq<Field>, strategy: Strategy, got: seq<Field>, ignored: set<string>, change: SchemaChange, faults: Faults)
    requires change.addColumns == WithoutNames(DiffOf(want, got), ignored).added && PatchOf(got, change, faults).error.Some?
    ensures IsTrueError(PatchOf(got, change, faults).error.value, want, strategy, Some(got), faults)
  {
    MembersOutside(want, ByName(got).Keys);
    MembersOutside(FieldsOutside(want, ByName(got).Keys), ignored);
    ByNameKeys(got);
    forall name | name in RequiredNames(change.addColumns)
      ensures name !in Names(got) && exists w :: w in want && w.name == name && w.required
    {
      RequiredAre(change.addColumns, name);
    }
  }

  lemma DropErrors(want: seq<Field>, strategy: Strategy, got: seq<Field>, now: seq<Field>, ignored: set<string>, names: seq<string>,
                   faults: Faults)
    requires names == WithoutNames(DiffOf(want, got), ignored).removed && DropOf(now, names, faults).error.Some?
    ensures IsTrueError(DropOf(now, names, faults).error.value, want, strategy, Some(got), faults)
  {
    RemovedNames(want, got, ignored);
    if FirstBadName(names).Some? {
      BadNameIs(names);
      assert FirstBadName(names).value in ToSet(names);
    }
  }

  lemma ApplyErrors(want: seq<Field>, strategy: Strategy, got: seq<Field>, ignored: set<string>, change: SchemaChange, faults: Faults)
    requires change.addColumns == WithoutNames(DiffOf(want, got), ignored).added
    requires change.dropColumns == [] || change.dropColumns == WithoutNames(DiffOf(want, got), ignored).removed
    requires ApplyOf(got, change, faults).error.Some?
    ensures IsTrueError(ApplyOf(got, change, faults).error.value, want, strategy, Some(got), faults)
  {
    var patch := PatchOf(got, change, faults);
    if patch.error.Some? {
      PatchErrors(want, strategy, got, ignored, change, faults);
    } else {
      DropErrors(want, strategy, got, Latest(got, patch.states), ignored, change.dropColumns, faults);
    }
  }

  /**
   Whatever error a migration returns is true: a conflict names a declared column, the table's and
   why they cannot be reconciled, a refused addition a REQUIRED column the table lacks, a refused
   drop an undeclared column with such a name, and an API error is one that was met.
   */
  lemma ErrorsAreTrue(want: seq<Field>, strategy: Strategy, table: Option<seq<Field>>, faults: Faults)
    requires MigrateOf(want, strategy, table, faults).error.Some?
    ensures IsTrueError(MigrateOf(want, strategy, table, faults).error.value, want, strategy, table, faults)
  {
    if faults.read.None? && table.Some? {
      var got := table.value;
      var plan := Plan(strategy, Existing(want, got));
      if plan.Err? {
        PlanErrors(want, strategy, got, faults);
      } else {
        match strategy
        case MigrationNone(_) =>
        case AppendNewColumns(_) =>
          NothingIgnored(DiffOf(want, got));
          ApplyErrors(want, strategy, got, {}, plan.value, faults);
        case SyncAllColumns(ignore, _) =>
          ApplyErrors(want, strategy, got, ToSet(ignore), plan.value, faults);
      }
    }
  }

  /** A table in step with the declaration is not written to, whatever the strategy and whatever fails. */
  lemma InStepTouchesNothing(want: seq<Field>, strategy: Strategy, got: seq<Field>, faults: Faults)
    requires RecDistinct(want) && RecDistinct(got) && SameUpToOrder(want, got)
    requires faults.read != Some(NotFound)
    ensures MigrateOf(want, strategy, Some(got), faults).states == []
    ensures MigrateOf(want, strategy, Some(got), faults).error.None? <==> faults.read.None?
  {
    EmptyExactlyWhenSame(want, got);
    var nothing := SchemaDiff([], [], [], []);
    assert DiffOf(want, got) == nothing;
    if strategy.SyncAllColumns? {
      NothingWithout(ToSet(strategy.ignoreColumns));
    }
    assert Plan(strategy, TableState(true, nothing)) == Ok(NO_CHANGE);
  }

  lemma NothingWithout(ignored: set<string>)
    ensures WithoutNames(SchemaDiff([], [], [], []), ignored) == SchemaDiff([], [], [], [])
  {
  }
}
