# bqsink, modelled and proved

bqsink keeps a BigQuery table in step with a declared schema and hands rows to a
transport. This project models the parts of it whose correctness does not depend on the
network and proves what they promise:

- **The load-job writer** (`write.go`). `Writer` holds the mutex-guarded state and its
  critical sections, as functions and as a class proved to follow them. `WriterProtocol`
  lets any number of calls of WriteRows, FlushRows and Close run interleaved, one critical
  section, loader answer or wait-group move at a time; `WriterSafety` proves what holds in
  every run, and `WriterAnswers` which calls are refused and what each takes when it holds
  the lock, from the history of the run alone. `Load`, `JsonText` and `Retry` are one job:
  the newline delimited payload, its text, and the attempts to deliver it.
- **The migration** (`migration.go`). `Schema` and `Diff` compare schemas, `Migration`
  plans and applies a change, `Convergence` proves what one undisturbed migration achieves,
  `MigrationOutcomes` what it leaves the table as, column by column, and what its errors mean,
  and `MigrationProtocol` what any number of concurrent ones do to each other under
  etag-checked writes, lost replies and retries.
- **Embedded-field promotion** (`fields.go`). `Promotion` is the pruned breadth-first walk,
  `EmbeddingPaths` relates it to the set of all embedding paths (infinite for recursive
  types), `Collisions` is the collision rule and the sort, and `Columns` compares the whole
  with the rule that the source's comment promises.
- **Rows** (`plan.go`, `maprow.go`, `jsonrow.go`). `RowPlan` and `StructRows` turn struct
  values into a schema and rows, and `StructContents` says what both hold in terms of the type,
  the tags and the values; `MapRow` and `AcceptedRows` do the same for dynamic maps. `JsonRow`
  renders rows for the two transports, `RenderedRows` says what the renderer makes of each value,
  and `Decimal` is the decimal text. `JsonReader` is a reader of JSON; `JsonCompaction` proves
  that compacting changes nothing it finds, and `ReadBack` that it finds the row in the text of
  a row. `EncodedRows` and `EncodedStructs` say when there is a text and what is null in it.
- **The Sinker around them** (`bqsink.go`). `Sinking` starts once, writes whole batches and
  guards against a short count.

`Wrappers`, `Arith` and `Values` are shared. A method that walks or updates as the source
does is proved equal to a function of its inputs or old state; the properties are proved of
those functions, over all inputs and all runs.

Two places where the code does less than its documentation says, each with the exact
condition under which it happens:

- `collectFields` says it follows the rules of encoding/json: over all embedding paths the
  shallowest column of a name wins, one tag breaks a tie, and an unresolved tie removes the
  column (fields.go:26-30, doc.go:65-71). A type embedded twice on one level is descended into
  once, so a column that is ambiguous over all paths is kept: `Columns.DiamondDiffers` is the
  smallest case. What the walk does follow is the same rule with each field of a type counted
  once, `Columns.FieldKeptExactlyWhen`; and the two agree exactly when every field that wins
  under it belongs to a type with one shortest embedding path,
  `Columns.SameColumnsExactlyWhen`, a condition on the declared types alone. The comparison
  is with the documented rule, not with the code of encoding/json.
- A REQUIRED column cannot hold NULL (doc.go:82-83) and BigQuery refuses a NULL array element
  (maprow.go:113-119), yet both can be null in the text the reader gets. Of a map row exactly
  when a JSON column is given no text or, for a load job, the JSON text null:
  `AcceptedRows.RequiredIsNullExactlyWhen` and `AcceptedRows.ArrayElementIsNullExactlyWhen`.
  Of a struct exactly when the value is a nil byte slice or gives such JSON text, or, for an
  array element, is nil: `EncodedStructs.RequiredIsNullExactlyWhen` and
  `EncodedStructs.ArrayElementIsNullExactlyWhen`.

## Model

| member | source | states |
|---|---|---|
| Writer.LoadJobsWriter.BindSchema | write.go:292-303 | a schema is bound exactly when it has columns and none is bound yet; nothing else changes |
| Writer.LoadJobsWriter.WriteSection | write.go:318-346 | the first critical section of WriteRows: refused when closed or unbound, otherwise buffered, and the whole buffer detached and counted once it reaches FlushRows |
| Writer.LoadJobsWriter.RecordSection | write.go:349-353 | a failed threshold submission goes to the end of pending and touches nothing else |
| Writer.LoadJobsWriter.FlushSection | write.go:378-392 | FlushRows takes buffer and pending together, and is counted exactly when it took rows |
| Writer.LoadJobsWriter.CloseSection | write.go:432-442 | the first Close sets closed and takes the buffer; a later one changes nothing |
| Writer.LoadJobsWriter.TakePendingSection | write.go:444-449 | after the wait, Close takes all of pending and leaves it empty |
| WriterProtocol.StepKeeps | write.go:318-459 | every step of every call keeps the invariant: batches and buffer make up the accepted rows, the wait-group count is the number of live counted submissions, every lost job's failure is in exactly one place |
| WriterSafety.NothingLostOrRepeated | write.go:318-459 | at every moment of every interleaving, detached batches in detach order and then the buffer are the accepted rows in acceptance order, each row in one place only, and no batch reaches the loader twice |
| WriterSafety.Accounting | write.go:346-355 | once every call has returned after a Close, accepted rows are the landed rows plus the rows of the jobs whose failures were returned; with FlushRows set those are the counts the errors name, while an unbuffered WriteRows fails for the rows it was handed |
| WriterSafety.ToldExactlyOnce | write.go:384-409 | the failure of each lost job is told by exactly one call exactly once: a threshold submission's by a FlushRows or the Close, any other by its own call |
| WriterSafety.OnlyTrueFailuresTold | write.go:446-458 | no call tells of a failure that did not happen or of another row count |
| WriterSafety.ResultsTellTheTruth | write.go:332-355 | with FlushRows set an accepted WriteRows reports all its rows and no error; FlushRows and an unbuffered WriteRows report exactly the rows of their own job that landed |
| WriterSafety.ClosedForGood | write.go:432-449 | after closed is set nothing is accepted, the buffer stays empty and the count never rises; after the Close took pending, pending and count stay empty for ever |
| WriterSafety.CloseWaitsForSubmissions | write.go:344-348 | the count is the number of live threshold and FlushRows submissions, and past Close's wait every such submission's call has returned |
| WriterSafety.BufferBound | write.go:339-345 | between sections the buffer is short of FlushRows; a threshold batch holds at least FlushRows rows and exceeds it by less than the filling call's own |
| WriterSafety.SingleRowJobCount | write.go:339-345 | single-row calls without a flush make exactly accepted div FlushRows jobs and leave accepted mod FlushRows rows, however they interleave |
| WriterAnswers.WriteAnswered | write.go:318-346 | WriteRows without rows returns at once; otherwise it is refused after a Close, or else before a schema, and accepts its rows in every other case: to load them, to buffer them, or to load the whole buffer with them |
| WriterAnswers.AcceptedExactlyWhen | write.go:318-332 | rows are accepted exactly when a schema has been bound and no Close has held the lock before, whatever the buffer holds |
| WriterAnswers.FlushAnswered | write.go:378-392 | FlushRows is refused exactly after a Close; otherwise it takes the whole buffer and every failure kept |
| WriterAnswers.CloseAnswered | write.go:432-442 | the first Close closes the writer, takes the whole buffer and waits; any later one changes nothing and returns no error |
| WriterAnswers.RefusedExactlyWhen | write.go:318-383 | what a returned call was refused with, if anything, is settled by the binding and the closing that had gone before when it held the lock |
| WriterSafety.NoDeadlock | write.go:432-459 | while any call has not returned some step is possible, so Close's wait cannot block for ever |
| WriterSafety.AtMostSixSteps | write.go:318-459 | no call takes more than six steps in any run, and one that has taken six, a Close with rows left, has returned |
| WriterSafety.CallsReturn | write.go:318-459 | the steps of all calls together are at most six per call made, less what the calls still have before them |
| WriterSafety.EveryCallCanReturn | write.go:318-459 | every run can go on, with no further call, to a state where every call has returned |
| Load.BuildPayload | write.go:461-470 | the buffer is the rows' encodings, each ended by a newline, or nothing when some row cannot be encoded |
| Load.PayloadSplits | write.go:463-470 | splitting a payload at its newlines gives back exactly its lines |
| Load.PayloadHoldsTheRows | write.go:461-470 | the lines of a batch's payload are its rows' encodings, one per row, in order |
| Load.LoadRows | write.go:461-477 | an unencodable batch is never sent; any other is sent once per attempt, each attempt carrying the identical payload, and the last attempt's answer is returned |
| Load.EveryAttemptCarriesTheRows | write.go:474-476 | under the default policy one to five attempts are made, and each one's payload splits into the batch's row encodings |
| Retry.AttemptLimiter.Retry | migration.go:485-491 | another attempt is allowed exactly while retries are left and the error is retryable, and a retry is used up only while some are left |
| Retry.Retrying | bqsink.go:738-756 | the number of attempts is the one StopsExactlyWhen characterises, all with the same rows, and the outcome is the last one's |
| Retry.DefaultStopsExactlyWhen | migration.go:462-491 | under the default policy attempts stop at the first answer that is not a conflict, too many requests or a fault of the server, or at the fifth |
| Retry.StopsExactlyWhen | migration.go:462-491 | attempts stop at the n-th exactly when all before it failed retryably and it did not, or the limit is reached |
| JsonText.QuotedTextReadsBack | jsonrow.go:52-54 | a reader of RFC 8259 strings gets any text back from its escaped form and stops at the closing quote |
| JsonText.CompactTwice | jsonrow.go:167 | compacting embedded JSON text is idempotent |
| JsonCompaction.CompactKeepsMeaning | jsonrow.go:164-167 | compacting a text changes nothing that a reader of JSON finds in it |
| ReadBack.TreeReadsBack | jsonrow.go:47-59 | a reader finds in the text of a rendered tree what the tree says, elements in order and each member once, and stops where the text ends |
| ReadBack.RowReadsBack | jsonrow.go:42-193 | whatever row is encoded, a reader of its text finds the row: every column once under its own name and no other, every value as its column type and the transport have it, at every depth |
| JsonText.ObjectRawsValid | jsonrow.go:164-167 | whatever text the renderer embeds unquoted is valid JSON, at every depth |
| JsonText.TreeIsOneLine | jsonrow.go:52-58 | the text of a rendered tree never contains a raw newline |
| JsonText.RowIsOneLine | jsonrow.go:47-59 | a rendered row contains no raw newline in either dialect |
| Schema.SameNestedSchema | migration.go:243-264 | the loop decides the recursive comparison SameNested |
| Schema.SameNestedReflexive | migration.go:241-264 | every duplicate-free schema is the same as itself |
| Schema.SameNestedSymmetric | migration.go:241-264 | the comparison is symmetric on recursively duplicate-free schemas, although the code indexes only one side |
| Schema.SameNestedTransitive | migration.go:241-264 | the comparison is transitive |
| Schema.SameNestedIsSameUpToOrder | migration.go:241-264 | it holds exactly when some reordering at each level makes names, types and modes equal |
| Diff.DiffSchema | migration.go:194-222 | the loops compute the added, removed, relaxed and conflicting columns of DiffOf |
| Diff.Without | migration.go:157-183 | ignoring names removes exactly the entries about those names, in order |
| Diff.ConflictsExactlyWhen | migration.go:227-239 | there is no conflict exactly when the table's column meets the declaration as it is or once relaxed; the reason is the first difference of type, repetition, mode and nested fields |
| Diff.WhereItGoes | migration.go:194-239 | a declared column is added when the table lacks it, in conflict when it meets the declaration neither as it is nor relaxed, and to be relaxed when it does so only relaxed |
| Diff.EachNameOnce | migration.go:194-222 | a declared column is in exactly one of Added, Conflicts, Relaxed or agreement; a table column is in Removed exactly when undeclared |
| Diff.EmptyExactlyWhenSame | migration.go:118-222 | the diff is empty exactly when declaration and table agree up to order at every depth |
| Migration.MergeSchema | migration.go:432-450 | every table column in place, relaxed where asked, then the added columns |
| Migration.Sinker.Migrate | migration.go:493-515 | a read that says NotFound leads to creation or a refusal, a table read to a plan and a change; error, table and every schema it passed through are those of MigrateOf |
| Migration.Sinker.Apply | migration.go:517-538 | nothing for an empty change; the patch, then only if it succeeded the drop |
| Migration.Sinker.PatchSchema | migration.go:579-595 | no call when nothing is added or relaxed, a refusal for REQUIRED additions, otherwise the merged schema |
| Migration.Sinker.DropColumns | migration.go:600-618 | no drop with a name BigQuery does not allow; otherwise exactly the named columns go |
| Convergence.SyncConverges | migration.go:399-416 | when a SyncAllColumns migration returns nil, the new diff without the ignored names is empty and planning again gives an empty change, whatever the API faults |
| Convergence.AppendConverges | migration.go:360-375 | when an AppendNewColumns migration returns nil, nothing is added, relaxed or in conflict any more and the removed columns are the ones before |
| Convergence.CreateConverges | migration.go:493-515 | a table just created is in step with the declaration |
| Convergence.AppendSucceedsExactlyWhen | migration.go:360-375 | without API faults AppendNewColumns succeeds exactly when no declared column conflicts and none the table lacks is REQUIRED |
| Convergence.SyncSucceedsExactlyWhen | migration.go:399-416 | without API faults SyncAllColumns succeeds exactly when that holds of the declared columns not ignored and every column to drop has a name that can be put in the statement |
| Convergence.MoreRatherThanLess | migration.go:517-537 | in every schema the table passes through, whatever fails, declared and ignored columns that were there are still there, and only names neither declared nor ignored are ever dropped |
| Convergence.RerunPlansTheSameDrops | migration.go:517-538 | after a failure between patch and drop, planning again gives the same drops, no additions and no relaxations |
| MigrationOutcomes.NoneSucceedsExactlyWhen | migration.go:331-345 | MigrationNone writes to no table it can read, and succeeds exactly when no declared column conflicts with it |
| MigrationOutcomes.CreatedExactlyWhen | migration.go:493-523 | a table that reads as missing is created as declared exactly when the strategy says so and nothing refuses it, and nothing else is ever written |
| MigrationOutcomes.AppendOutcome | migration.go:360-450 | after success every column of the table is in its place, NULLABLE where it is declared so, and then come the declared columns it lacked, in their order |
| MigrationOutcomes.SyncOutcome | migration.go:399-450 | the same of the columns not ignored, less exactly those neither declared nor ignored |
| MigrationOutcomes.FailedSync | migration.go:517-538 | a failed SyncAllColumns has written nothing, or all of its additions and relaxations and no drop |
| MigrationOutcomes.InStepTouchesNothing | migration.go:517-528 | a table that agrees with the declaration up to order is not written to, whatever the strategy |
| MigrationOutcomes.ErrorsAreTrue | migration.go:493-618 | every error is true: a conflict names two columns and why they cannot be reconciled, a refused addition a REQUIRED column the table lacks, a refused drop an undeclared column, an API error one that was met |
| MigrationProtocol.StepKeeps | migration.go:493-538 | every step of every Sinker keeps the invariant relating what each one read to the table as it is, and the table only grows |
| MigrationProtocol.AttemptAlone | migration.go:493-538 | an attempt that nothing comes between is the sequential migration: done exactly when it returns nil, and the table changed exactly as it changes it |
| MigrationProtocol.TableOnlyGrows | migration.go:579-595 | in any run, between any two moments no column is removed, moved or retyped and none becomes REQUIRED |
| MigrationProtocol.NilMeansSatisfiedForever | bqsink.go:474-485 | once a Sinker's migrate returned nil, every column it declares exists ever after with its type, repeated flag and nested schema, REQUIRED only if it said so |
| MigrationProtocol.StepApproaches | migration.go:579-590 | each change of the table raises the etag by one and strictly lowers missing names plus REQUIRED columns; nothing else touches either |
| MigrationProtocol.ChangesAreBounded | migration.go:579-590 | the changes made in any run are bounded by what that measure starts with |
| MigrationProtocol.LostRacesAreBounded | migration.go:485-491 | a Sinker loses an etag race at most as often as the table changed, hence at most as often as the starting measure |
| MigrationProtocol.RetriesSuffice | migration.go:462-491 | with as many retries as the starting measure, a Sinker that meets nothing worse than lost races never fails, is done after two steps per race and two more, and until then can always take another unless what it read conflicts |
| Promotion.ScanFields | fields.go:41-84 | one struct's fields: skipped, queued once per unvisited type, or added as candidates, or a failure on a bad tag |
| Promotion.ScanLevel | fields.go:40-88 | one level of the walk |
| Promotion.FindCandidates | fields.go:31-89 | the worklist loop computes the walk, and terminates for recursive types because each level visits a new one |
| EmbeddingPaths.WalkFinds | fields.go:31-91 | every candidate is a column reached by a shortest embedding path |
| EmbeddingPaths.WalkFindsAll | fields.go:31-91 | every column of every type reachable by any embedding path is found |
| EmbeddingPaths.WalkSeparate | fields.go:59-61 | each type is descended into once, so candidates have pairwise distinct indices |
| EmbeddingPaths.FailsExactlyWhen | fields.go:44-47 | collectFields fails exactly when a reachable type has a tag that does not parse |
| Collisions.WinnerFor | fields.go:118-147 | the accumulators compute the winner |
| Collisions.WinnerBeats | fields.go:118-147 | a candidate wins exactly when it is the only shallowest, or the only tagged one of the shallowest |
| Collisions.ResolveCollisions | fields.go:99-116 | the kept candidates are exactly those that win their own name, in index order |
| Collisions.SurvivesExactlyWhenBeats | fields.go:99-116 | a candidate survives exactly when it beats all of its name |
| Collisions.OneSurvivorPerName | fields.go:99-116 | survivors have pairwise distinct names |
| Collisions.NameSurvivesExactlyWhen | fields.go:99-147 | a name survives exactly when its candidates have a winner |
| Collisions.SortByIndex | fields.go:112-114 | the result is a permutation in strictly increasing lexicographic index order |
| Collisions.OneOrder | fields.go:112-114 | there is only one such order |
| Columns.CollectFields | fields.go:31-116 | the columns kept: distinct names, strictly increasing indices, exactly the survivors of the walk |
| Columns.ColumnsAreDeclared | fields.go:41-84 | every column returned is described by the declaration its index leads to, with the tag's name where there is one; every field not skipped that is exported, or an embedded struct its tag names, of every reachable type is in the running |
| Columns.EnumerationExactly | fields.go:24-91 | a column wins the enumeration of all embedding paths exactly when the walk keeps it and its type has only one shortest path |
| Columns.FieldKeptExactlyWhen | fields.go:31-147 | a column is kept, by one path of its length to the same field, exactly when its field wins over all embedding paths with each field of a type counted once |
| Columns.SameColumnsExactlyWhen | fields.go:24-91 | the walk and the enumeration keep the same columns exactly when each field that wins so belongs to a type with one shortest path: a condition on the declared types |
| Columns.UniquePathsSuffice | fields.go:24-91 | they do whenever every reachable type has one shortest path |
| Columns.DiamondDiffers | fields.go:59-61 | a type embedded twice on one level makes them differ |
| RowPlan.DescribeSchema | plan.go:450-467 | the loop builds the schema of a plan, nested plans included |
| RowPlan.WriteRow | plan.go:479-501 | the loop marshals a struct's columns in order and fails with the first column that fails |
| RowPlan.WriteValue | plan.go:503-524 | NULL for a missing embedded field, a zero value under nullifzero or a nil; otherwise the scalar or the elements |
| RowPlan.WriteRepeated | plan.go:539-553 | each element converted in order, or the first failure |
| StructRows.ScalarShape | plan.go:555-569 | a converted element has the shape its column renders, and valid text in a JSON column unless a raw message or the encoder put other text there |
| StructRows.ScalarTypes | plan.go:555-620 | a converted element is NULL or of its column's own type; only a big.Rat behind more than one pointer is written as the pointer it is |
| StructRows.SchemaDistinct | plan.go:172-199 | a schema built from structs with distinct columns has no duplicate column at any RECORD depth |
| StructRows.DerivedSchemaDistinct | plan.go:172-199 | nor has any schema of structs whose columns are what collectFields keeps |
| StructRows.RowsMatchTheirSchema | plan.go:479-501 | a marshalled struct has exactly the columns of its schema at every RECORD depth, each value NULL or of its column's own type; only a big.Rat behind more than one pointer is written as the pointer it is |
| StructContents.SchemaIsDeclared | plan.go:295-467 | each column has the name, description, mode and type that its field's type and tags ask for, at every RECORD depth |
| StructContents.PlansExactlyWhen | plan.go:295-447 | a type has a plan exactly when it is a struct with columns, each of a type there is a column for under its tag |
| StructContents.RowHoldsValues | plan.go:479-620 | every field of a marshalled struct arrives in its own column as it is, seen through its pointers, in every array element and at every RECORD depth |
| StructContents.NullExactlyWhen | plan.go:484-524 | a column is NULL exactly when an embedded pointer on the way is nil, its value ends in nil, it is zero or empty under nullifzero, or it is an empty raw message |
| StructRows.RowsRenderUnless | jsonrow.go:61-168 | jsonObject refuses such a row exactly on NULL in a REQUIRED column or, for a load job, on JSON text that is not valid, which only a json.RawMessage can give |
| StructRows.MarshalsExactlyWhen | plan.go:479-569 | a struct value marshals exactly when encoding/json refuses nothing in a JSON column and no RECORD column holds a nil pointer behind another pointer, at every depth |
| EncodedStructs.StructRowsEncode | jsonrow.go:47-59 | a struct's row has a text exactly when no REQUIRED column is NULL, no number is NaN or infinite and, for a load job, every JSON text is valid |
| EncodedStructs.RequiredIsNullExactlyWhen | plan.go:591-613 | a REQUIRED column of a rendered struct is null in the row's text exactly when its field holds a nil byte slice or, for a load job, JSON text that is null |
| EncodedStructs.ArrayElementIsNullExactlyWhen | plan.go:539-569 | an array element of a rendered struct is null in the row's text exactly when it ends in nil, is a nil byte slice or gives JSON text that is empty or, for a load job, null |
| EncodedStructs.NilBytesInRequired | plan.go:607-610 | a nil byte slice in a REQUIRED BYTES field is written as null for both transports |
| EncodedStructs.NilPointerInArray | plan.go:539-561 | an array holding a nil pointer is written as an array holding null for both transports |
| EncodedRows.EncodesExactlyWhen | jsonrow.go:47-168 | a typed row has a text exactly when no REQUIRED column is NULL, no number is NaN or infinite and, for a load job, every JSON text is valid |
| EncodedRows.MemberIsNullExactlyWhen | jsonrow.go:47-168 | a column of a typed row is null in the row's text exactly when it is NULL, a nil byte slice, or JSON text that is empty or, for a load job, null |
| EncodedRows.ElementIsNullExactlyWhen | jsonrow.go:47-168 | the same of each element of a REPEATED column |
| MapRow.BuildMapPlan | maprow.go:41-57 | the indexes of a schema by name, the last of a name winning, and the nested schemas of its RECORD columns |
| MapRow.IsNilAny | maprow.go:316-333 | the cursor finds nil through any number of pointers |
| MapRow.NilExactlyWhen | maprow.go:316-333 | a value is nil exactly when it is nil, or a typed nil, behind any number of pointers |
| MapRow.AllDeclared | maprow.go:78-82 | the row uses only columns of the schema |
| MapRow.ConvertMap | maprow.go:77-91 | the loops convert a row column by column in schema order, or refuse it |
| MapRow.ConvertField | maprow.go:97-109 | a missing or nil value is NULL, refused by a REQUIRED column |
| MapRow.ConvertRepeated | maprow.go:120-137 | a []any without nil elements, element by element |
| AcceptedRows.ElementFits | maprow.go:170-262 | an element is converted exactly when it is of a type that the accepted type table gives for its column |
| AcceptedRows.ElementCarried | maprow.go:170-262 | a converted element holds what was given: the same text, number, instant or columns |
| AcceptedRows.IntegerFitsExactlyWhen | maprow.go:264-304 | an INTEGER column takes exactly the integers, and the floats equal to an integer, that INT64 holds |
| AcceptedRows.FitsExactlyWhen | maprow.go:77-262 | a map row is accepted exactly when it uses only declared columns, fills the REQUIRED ones, has no NULL element and every value fits its column's type, recursively |
| AcceptedRows.RowsMatchTheirSchema | maprow.go:77-262 | an accepted row has exactly its schema's columns, each value NULL or of its column's own type, with no NULL in a REQUIRED one, at every depth |
| AcceptedRows.AcceptedRowsRender | jsonrow.go:61-168 | jsonObject renders every accepted row for Storage Write, and for a load job exactly those whose JSON columns hold valid text |
| AcceptedRows.AcceptedRowsEncode | jsonrow.go:47-59 | an accepted row has a text exactly when its numbers are finite and, for a load job, its JSON texts valid |
| AcceptedRows.RequiredIsNullExactlyWhen | jsonrow.go:146-168 | a REQUIRED column of an accepted row is null in the row's text exactly when it is a JSON column given no text or, for a load job, the JSON text null |
| AcceptedRows.RequiredJsonColumnIsNull | jsonrow.go:146-168 | for every REQUIRED JSON column and every such text there is an accepted row whose whole line holds null there |
| AcceptedRows.ArrayElementIsNullExactlyWhen | maprow.go:113-137 | an element of a REPEATED column is null in the row's text under the same condition, although nil elements are refused |
| AcceptedRows.NothingAltered | maprow.go:77-304 | every value given arrives unaltered in its own column, at every depth, and every other column is NULL |
| JsonRow.RenderObject | jsonrow.go:61-79 | the map loop renders every column by its field, or refuses the row |
| JsonRow.RenderValue | jsonrow.go:81-106 | NULL, a repeated value element by element, or one element |
| JsonRow.RenderElement | jsonrow.go:108-140 | the rendering of one element by column type and dialect |
| RenderedRows.RowRendered | jsonrow.go:61-193 | whatever row is rendered, nothing is left out, added or moved, and each value has the form its column type and the transport read |
| JsonRow.RendersExactlyWhen | jsonrow.go:61-168 | a row of its schema's shape renders exactly when no REQUIRED column is NULL and, for a load job, every JSON text is valid |
| JsonRow.DialectsAgree | jsonrow.go:21-168 | what renders for a load job renders for Storage Write, and the two trees differ only at instants and in JSON columns |
| Decimal.TextStandsFor | jsonrow.go:173-193 | decimal text reads back as the kept number of units of the column's scale |
| Decimal.WithinHalfADigit | jsonrow.go:173-193 | the text is within half a unit of the last kept digit of the value, and exact exactly when the value is integral or fits the scale |
| Decimal.DecimalTextIs | jsonrow.go:170-193 | the text has no more digits than the column's own scale, or 38 for BIGNUMERIC and 9 for NUMERIC, and reads back as the value rounded to them, a half going away from zero |
| Decimal.Monotone | jsonrow.go:173-193 | for one column a larger value never reads back smaller |
| Decimal.UnsignedRoundTrips | plan.go:604-605 | every unsigned integer written as NUMERIC reads back as itself |
| Sinking.LiveSinker.StartOnce | bqsink.go:474-485 | the table is migrated, then the schema bound, on the first call only; the outcome is kept |
| Sinking.LiveSinker.SinkRows | bqsink.go:544-626 | a batch is checked, the Sinker started, every row prepared and the whole batch written once, with an error on any short count |
| Sinking.ReadRows | bqsink.go:637-656 | a single row, or every element of a batch, refusing a nil one |
| Sinking.BatchRowType | bqsink.go:661-669 | the type of a batch, refused exactly when it mixes types |
| Sinking.SinkSucceedsExactlyWhen | bqsink.go:544-626 | Sink returns no error exactly when it was handed no rows, or all of them are there, of its type and prepared, the start succeeds and the writer settles exactly that many; then it returns their number |
| Sinking.EntryAnswered | bqsink.go:544-590 | among overlapping calls, one comes to rows to write exactly under the same conditions, and a batch of another type starts nothing |
| Sinking.HandAnswered | bqsink.go:591-626 | and it is answered with what the writer settled, any other count than its own being an error |
| Sinking.EveryRunStartsOnce | bqsink.go:474-485 | however many Sink calls overlap, the table is migrated at most once and the schema bound at most once, before any write, and nothing is written after a failed start |
| Sinking.NothingLostQuietly | bqsink.go:544-626 | however Sink calls overlap, the writes after the start-up are those of distinct calls, one each, each that call's whole batch in order; a call returned without an error settled every row it was handed and is one of them unless it was handed none |
| Sinking.LogGrows | bqsink.go:591-626 | what is written stays written, in its place |

## Left out

- Storage Write (`storagewrite.go`) and staging (`bqgcs/staging.go`): calls into managedwriter, protobuf and Cloud Storage are not part of this model.
- BigQuery itself: a load job is an oracle that lands or fails each attempt, the table an atomic versioned schema; a lost reply to an update is modelled, a lost reply to a read is a failed read.
- The Go memory model: each section that holds a mutex is one atomic step.
- Reflection, tag parsing and method sets (`schema.go`, `fill.go`, `marshal.go`): types, tags and values arrive as algebraic data.
- Registered marshalers and FieldMarshaler implementations: arbitrary user code.
- `resolveLayout` and the partition, clustering and label tags: table layout only, with small local checks.
- Self-referential types tagged `record`: a struct type is a finite tree here, since the source recurses on such a type without a visited check.
- The map plan's nested plans: they are looked up in the schema they were built from rather than stored.
- Which of several errors a failing row reports: it depends on Go's map order, so a refused row is only refused.
- Duplicate column names in a schema the caller spells out: the theorems about schemas assume none, recursively, though the functions follow the source's last-one-wins index.
- Invalid UTF-8 in strings: text is a sequence of Unicode characters.
- encoding/json's member order and its text for floats, byte strings and values handed to it as they are: parameters, required only to write each member once and to stay on one line; to be compact text that a reader of JSON reads, where reading back is the question; and to refuse NaN and the infinities alone and write no other leaf as null, where null is.
- JSON validity: a parameter; the newline results assume only that valid text has no control character inside a string, as section 7 of RFC 8259 demands, and the reading results that a reader can read it.
- math/big's FloatString and Num().String(): modelled from their documented behaviour.
- A retry policy without a limit, backoff times, and cancellation during a backoff wait: not modelled, so every policy here is RunOnce or bounded.
- gax.Invoke's refusal to retry a certificate error: BigQuery answers are the only failures here.
- SyncAllColumns among concurrent Sinkers: a drop removes columns by design, so the protocol's monotonicity is about AppendNewColumns; SyncAllColumns is modelled on a quiet table.
- That encoding/json writes valid JSON where it succeeds: an assumption of StructRows.RowsRenderUnless.
- The writer's own concurrency in the overlap of Sink calls: handing a batch to WriteRows and settling its result is one step there, and is taken apart in WriterProtocol.
- Logging, error wording, row ids and clock values.
- `relation.go`, `option.go`, `checkStrategyWithoutAClient`, `checkPlanAgainstSchema`: small checks that would add only easy members.
- EmbeddingPaths.FailsExactlyWhen: which bad tag is reported is not stated.
