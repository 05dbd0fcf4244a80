/**
 The migration of one Sinker on a table nobody else is changing (migration.go:266-618):
 the strategies' plans, the merged schema, the patch and the drop. BigQuery is the class
 Table; whether an API call fails is the caller's choice.
 */
module Migration {
  import opened Wrappers
  import opened Schema
  import opened Diff

  datatype TableState = TableState(present: bool, diff: SchemaDiff)

  datatype SchemaChange = SchemaChange(
    createTable: bool,
    addColumns: seq<Field>,
    relaxColumns: seq<string>,
    dropColumns: seq<string>)
  {
    predicate Empty() {
      !createTable && |addColumns| == 0 && |relaxColumns| == 0 && |dropColumns| == 0
    }
  }

  datatype Strategy =
    | MigrationNone(createIfMissing: bool)
    | AppendNewColumns(createIfMissing: bool)
    | SyncAllColumns(ignoreColumns: seq<string>, createIfMissing: bool)

  datatype ApiError = NotFound | ConcurrentChange | Transient | Permanent

  datatype MigrationError =
    | SchemaConflicts(conflicts: seq<SchemaConflict>)
    | AddsRequired(names: seq<string>)
    | TableMissing
    | BadColumnName(name: string)
    | Api(error: ApiError)

  const NO_CHANGE := SchemaChange(false, [], [], [])

  /** What a strategy asks for, migration.go:331-416. */
  function Plan(strategy: Strategy, state: TableState): Result<SchemaChange, MigrationError> {
    if !state.present then Ok(NO_CHANGE.(createTable := strategy.createIfMissing))
    else
      match strategy
      case MigrationNone(_) =>
        if |state.diff.conflicts| > 0 then Err(SchemaConflicts(state.diff.conflicts)) else Ok(NO_CHANGE)
      case AppendNewColumns(_) =>
        if |state.diff.conflicts| > 0 then Err(SchemaConflicts(state.diff.conflicts))
        else Ok(SchemaChange(false, state.diff.added, state.diff.relaxed, []))
      case SyncAllColumns(ignore, _) =>
        var diff := WithoutNames(state.diff, ToSet(ignore));
        if |diff.conflicts| > 0 then Err(SchemaConflicts(diff.conflicts))
        else Ok(SchemaChange(false, diff.added, diff.relaxed, diff.removed))
  }

  function Existing(want: seq<Field>, got: seq<Field>): TableState {
    TableState(true, DiffOf(want, got))
  }

  // ---- The merged schema ----

  function RelaxField(f: Field, relax: set<string>): Field {
    if f.name in relax then f.(required := false) else f
  }

  function RelaxFields(got: seq<Field>, relax: set<string>): seq<Field> {
    seq(|got|, i requires 0 <= i < |got| => RelaxField(got[i], relax))
  }

  /** What mergeSchema returns. */
  function Merge(got: seq<Field>, change: SchemaChange): seq<Field> {
    RelaxFields(got, ToSet(change.relaxColumns)) + change.addColumns
  }

  method MergeSchema(got: seq<Field>, change: SchemaChange) returns (next: seq<Field>)
    ensures next == Merge(got, change)
  {
    var relax := {};
    for i := 0 to |change.relaxColumns|
      invariant relax == ToSet(change.relaxColumns[..i])
    {
      relax := relax + {change.relaxColumns[i]};
      ToSetGrows(change.relaxColumns, i);
    }
    assert change.relaxColumns[..|change.relaxColumns|] == change.relaxColumns;
    next := [];
    for i := 0 to |got|
      invariant next == RelaxFields(got[..i], relax)
    {
      var copied := got[i];
      if copied.name in relax {
        copied := copied.(required := false);
      }
      next := next + [copied];
    }
    assert got[..|got|] == got;
    for i := 0 to |change.addColumns|
      invariant next == RelaxFields(got, relax) + change.addColumns[..i]
    {
      next := next + [change.addColumns[i]];
    }
  }

  lemma ToSetGrows(names: seq<string>, i: nat)
    requires i < |names|
    ensures ToSet(names[..i + 1]) == ToSet(names[..i]) + {names[i]}
  {
    forall x | x in ToSet(names[..i]) ensures x in ToSet(names[..i + 1]) {
      var k :| 0 <= k < i && names[..i][k] == x;
      assert names[..i + 1][k] == x;
    }
    assert names[..i + 1][i] == names[i];
  }

  // ---- One migration against the table ----

  /** The failure, if any, each API call of one attempt meets. */
  datatype Faults = Faults(
    read: Option<ApiError>,
    create: Option<ApiError>,
    update: Option<ApiError>,
    drop: Option<ApiError>)

  function RequiredNames(fields: seq<Field>): seq<string> {
    if fields == [] then []
    else
      var last := fields[|fields|-1];
      RequiredNames(fields[..|fields|-1]) + (if last.required then [last.name] else [])
  }

  predicate ColumnNameOk(name: string) {
    && name != ""
    && forall i | 0 <= i < |name| ::
         'a' <= name[i] <= 'z' || 'A' <= name[i] <= 'Z' || '0' <= name[i] <= '9' || name[i] == '_'
  }

  function FirstBadName(names: seq<string>): Option<string> {
    if names == [] then None
    else if !ColumnNameOk(names[0]) then Some(names[0])
    else FirstBadName(names[1..])
  }

  /** An outcome and the schemas the table took on the way to it. */
  datatype Applied = Applied(error: Option<MigrationError>, states: seq<seq<Field>>)

  function PatchOf(got: seq<Field>, change: SchemaChange, faults: Faults): Applied {
    if |change.addColumns| == 0 && |change.relaxColumns| == 0 then Applied(None, [])
    else if RequiredNames(change.addColumns) != [] then Applied(Some(AddsRequired(RequiredNames(change.addColumns))), [])
    else if faults.update.Some? then Applied(Some(Api(faults.update.value)), [])
    else Applied(None, [Merge(got, change)])
  }

  function DropOf(got: seq<Field>, names: seq<string>, faults: Faults): Applied {
    if FirstBadName(names).Some? then Applied(Some(BadColumnName(FirstBadName(names).value)), [])
    else if faults.drop.Some? then Applied(Some(Api(faults.drop.value)), [])
    else Applied(None, [FieldsOutside(got, ToSet(names))])
  }

  function Latest(got: seq<Field>, states: seq<seq<Field>>): seq<Field> {
    if states == [] then got else states[|states|-1]
  }

  /** apply, migration.go:517-538, on an existing table with schema got. */
  function ApplyOf(got: seq<Field>, change: SchemaChange, faults: Faults): Applied {
    if change.Empty() then Applied(None, [])
    else
      var patch := PatchOf(got, change, faults);
      if patch.error.Some? || |change.dropColumns| == 0 then patch
      else
        var drop := DropOf(Latest(got, patch.states), change.dropColumns, faults);
        Applied(drop.error, patch.states + drop.states)
  }

  /** Creating a table that is there after all is a conflict. */
  function CreateFault(table: Option<seq<Field>>, faults: Faults): Option<ApiError> {
    if faults.create.None? && table.Some? then Some(ConcurrentChange) else faults.create
  }

  /** migrate, migration.go:493-515: read, plan, apply. */
  function MigrateOf(want: seq<Field>, strategy: Strategy, table: Option<seq<Field>>, faults: Faults): Applied {
    if faults.read.Some? && faults.read.value != NotFound then Applied(Some(Api(faults.read.value)), [])
    else if table.None? || faults.read.Some? then
      if !strategy.createIfMissing then Applied(Some(TableMissing), [])
      else if CreateFault(table, faults).Some? then Applied(Some(Api(CreateFault(table, faults).value)), [])
      else Applied(None, [want])
    else
      match Plan(strategy, Existing(want, table.value))
      case Err(e) => Applied(Some(e), [])
      case Ok(change) => ApplyOf(table.value, change, faults)
  }

  class Table {
    var table: Option<seq<Field>>
    ghost var history: seq<seq<Field>>   // every schema an API call gave the table, oldest first

    constructor (table: Option<seq<Field>>)
      ensures this.table == table && history == []
    {
      this.table := table;
      history := [];
    }

    method Write(next: seq<Field>)
      modifies this
      ensures table == Some(next) && history == old(history) + [next]
    {
      table := Some(next);
      history := history + [next];
    }
  }

  class Sinker {
    const schema: seq<Field>
    const strategy: Strategy
    const api: Table

    constructor (schema: seq<Field>, strategy: Strategy, api: Table)
      ensures this.schema == schema && this.strategy == strategy && this.api == api
    {
      this.schema, this.strategy, this.api := schema, strategy, api;
    }

    /** A read that reports NotFound is taken to mean that the table is missing. */
    method Migrate(faults: Faults) returns (error: Option<MigrationError>)
      modifies api
      ensures
        var done := MigrateOf(schema, strategy, old(api.table), faults);
        && error == done.error
        && api.history == old(api.history) + done.states
        && api.table == if done.states == [] then old(api.table) else Some(done.states[|done.states|-1])
    {
      if faults.read.Some? && faults.read.value != NotFound {
        return Some(Api(faults.read.value));
      }
      if api.table.None? || faults.read.Some? {
        var plan := Plan(strategy, TableState(false, SchemaDiff([], [], [], [])));
        if !plan.value.createTable {
          return Some(TableMissing);
        }
        if CreateFault(api.table, faults).Some? {
          return Some(Api(CreateFault(api.table, faults).value));
        }
        api.Write(schema);
        return None;
      }
      var got := api.table.value;
      var diff := DiffSchema(schema, got);
      var plan := Plan(strategy, TableState(true, diff));
      if plan.Err? {
        return Some(plan.error);
      }
      error := Apply(got, plan.value, faults);
    }

    method Apply(got: seq<Field>, change: SchemaChange, faults: Faults) returns (error: Option<MigrationError>)
      requires api.table == Some(got)
      modifies api
      ensures
        var done := ApplyOf(got, change, faults);
        && error == done.error
        && api.history == old(api.history) + done.states
        && api.table == Some(Latest(got, done.states))
    {
      if change.Empty() {
        return None;
      }
      error := PatchSchema(got, change, faults);
      if error.Some? || |change.dropColumns| == 0 {
        return;
      }
      error := DropColumns(change.dropColumns, faults);
    }

    method PatchSchema(got: seq<Field>, change: SchemaChange, faults: Faults) returns (error: Option<MigrationError>)
      requires api.table == Some(got)
      modifies api
      ensures
        var done := PatchOf(got, change, faults);
        && error == done.error
        && api.history == old(api.history) + done.states
        && api.table == Some(Latest(got, done.states))
    {
      if |change.addColumns| == 0 && |change.relaxColumns| == 0 {
        return None;
      }
      var required := RequiredNames(change.addColumns);
      if |required| > 0 {
        return Some(AddsRequired(required));
      }
      var next := MergeSchema(got, change);
      if faults.update.Some? {
        return Some(Api(faults.update.value));
      }
      api.Write(next);
      return None;
    }

    method DropColumns(names: seq<string>, faults: Faults) returns (error: Option<MigrationError>)
      requires api.table.Some?
      modifies api
      ensures
        var done := DropOf(old(api.table.value), names, faults);
        && error == done.error
        && api.history == old(api.history) + done.states
        && api.table == Some(Latest(old(api.table.value), done.states))
    {
      for i := 0 to |names|
        invariant FirstBadName(names) == FirstBadName(names[i..])
      {
        if !ColumnNameOk(names[i]) {
          return Some(BadColumnName(names[i]));
        }
        assert names[i..][1..] == names[i + 1..];
      }
      if faults.drop.Some? {
        return Some(Api(faults.drop.value));
      }
      api.Write(FieldsOutside(api.table.value, ToSet(names)));
      return None;
    }
  }
}
