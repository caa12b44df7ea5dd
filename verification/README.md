# Merging two binlogs, verified

The program reads the binlogs of two MySQL servers and merges them into one table per source table. A Java
extractor (`extfetcher/`) turns row events into text files and DDL statements into line files; a C++ worker
(`src/`) replays them on an in-memory table that keeps, for each key, the row that was written last; the result
is dumped and pushed into a database. This project models those parts in Dafny and proves what they compute.

## How the modules fit together

| part | modules |
|---|---|
| merge engine | `Merge`, `MergeTheorems`: the last-writer-wins rule on plain values. `Newest`: which row that keeps. `TableEngine`: the classes of `table.cpp`, updated in place, proved against `Schema` |
| schema and runs | `Schema`, `Statements`: a logical table of named columns and what DDL does to it. `StatementEffects`: the same told by names and values. `SchemaTheorems`, `Runs`, `KeyChanges`, `MergedRuns`, `MergedLoss`: what every run keeps, and what it can lose. `SubWorker`: the worker's loop |
| row text | `RowText`, `RowRoundTrip`, `RowFits`, `WrittenRows`, `RowPasses`, `Lines` |
| DDL lines | `Ddl`, `LineReader`, `DdlReader`, `DdlRoundTrip`, `DdlMeanings`, `DdlQuotes`, `DdlPlaces` |
| event pipeline | `Pipeline`, `PipelineSafety`, `PipelineTheorems`, `PipelineProgress`, `PipelineExact`, `PipelineLoss` |
| GTID sets | `Intervals`, `GtidSets`, `GtidText`, `GtidGrammar`, `GtidPackage` |
| dump and push | `RowOrder`, `QuotedText`, `Dump`, `Pusher`, `PushTheorems`, `PushedRows`, `PushedStatements` |
| CRC | `Bits`, `CrcDivision`, `Crc`, `CrcComputers`, `CrcTheorems`, `CrcChecksums` |
| shared | `Text`, `Decimal` |

**Merge engine.** A `Table` object holds nullable rows with back-pointers, column objects that map a logical to a
physical column, and one index that is a hash table. `Valid()` says that the hash is a bijection onto the live
slots, that every live row knows its slot and has `colPhy` values, that mappings are distinct and below `colPhy`,
and that the ghost field `model` is what a user sees through the mapping. Every method states the new `model` as a
function of the old one. What is then proved of that function holds of the objects. The order in which rows and
sources come makes no difference to the outcome of a run (`Runs.RunOrderIrrelevant`). With an injective hash, and as
long as no statement parts rows that an earlier key has merged, the live rows are the per-key maxima of everything
delivered (`MergedRuns.MergedSince`).

**From event to database.** `WrittenRows.EveryRowCounts`: every row that a source writes reaches the worker.
`Newest.WorkerNewest`: of every key the newest row stays, of equally new ones source 0's. `PushedStatements.TableArrives`
and `PushedRows.EventArrives`: the statements of the push bring each stored row once, a null as null and any other value
as itself.

**Pipeline.** A step relation for one main thread, four parse workers behind a bounded queue, and one write-back
worker behind a bounded queue of batches. A schedule is any sequence of steps. Access to the table of writers and
the wait for a future are atomic steps.

**CRC.** Registers are bit sequences exactly as wide as the CRC, the highest bit first; the width is arbitrary (at
least a byte where a byte table is used).

## What the code turns out not to do

- A statement whose text contains "create" or "CREATE" is not drained, also when it is an ALTER with a column named
  `create_time`. `PipelineExact.ExactlyRiskless` says for which binlogs some schedule then puts rows into the next
  state's file, and `AlterCanOvertakeRows` shows one.
- `design.txt` (lines 31-36) removes an index that has lost its last column and recomputes it only otherwise; the code
  recomputes first, under the empty key, which leaves one row. `KeyChanges.DropOnlyKeyMeetsDesign` says exactly when
  the difference shows.
- The writer of row texts does not escape the backslash, which the reader takes as an escape:
  `RowRoundTrip.LineRoundTrip`, `FileRoundTrip` and `WrittenRows.WrittenFile` give the exact condition. With a backslash
  before a quote or at the end of a value the reader can go past its array of positions: `RowFits.ExactlySound` says for
  which values, `RowPasses.RowFitsExactly` for which rows, and `RowFits.MisfitExample` shows one.
- A key that is dropped, or loses its only column, gives way to a wider one, which cannot bring back what the key has
  merged away: a row that the wider key would keep can be missing. `MergedRuns.ExactlyMerged` and
  `MergedLoss.ExactlyAlwaysMerged` say for which statements and runs, and `MergedLoss.LostByDrop` shows a run.
- ADD COLUMN ... FIRST is written without its position, so the column is added at the end (`DdlPlaces.AddedFirst`), and
  of an ALTER with several items only the first is written (`Ddl.Meaning`). The lines of later rows can then have
  their values under other columns than in the database.
- CREATE strips the quotes around column names and the columns of keys, not around the names of keys, and most ALTER
  items strip none. `DdlQuotes.ExactlyHarmless` says for each kind of item when that makes a difference. The columns of an added key are not checked by the code that looks them up;
  `DdlQuotes.QuotedKeys` says when quotes make that lookup fail.
- A row event of a table that is not open ends the task that writes its batch. It is lost, and so are the rows after
  it, those of other tables too: `PipelineLoss.ExactlyEndangered` says which rows, and `RowLost` shows one.
- The writer of SQL literals escapes only the quote (`QuotedText.LiteralRoundTrip`), and the replacement of the null
  sentinel can reach into other values (`Pusher.NullsExactly`); `PushTheorems.RowIsRead` has the exact condition for
  whole rows.
- The constructor of a GTID set joins only its first two intervals (`Intervals.AdoptedCanonical`), and containment in a
  list whose neighbours touch can be missed. `Intervals.ExactlyCanonical` and `GtidText.ParsedDecides` say exactly when,
  for lists and for texts, and `GtidText.MissedExample` shows two texts.
- The branch of `UUIDSet.add` for a number just behind an interval cannot be taken: the search never stops there.

## Assumptions

- The hash of a key is a function parameter. Claims are made per hash value; where different keys must not collide,
  the lemma asks for an injective hash.
- `updated_at` exists before rows arrive, is not part of a named key where a lemma says so, and is never dropped.
- A data line brings no text past the table's last column, and a table has at least two columns: the reader divides by
  the number of columns minus one. `RowPasses.FileFitsExactly` says which of the writer's files meet this.
- The theorems that compare files with the one-at-a-time reading are about binlogs that open a table before its rows.
  Progress, the invariant and `PipelineExact.ExactlyClear` are about every binlog.
- Every row event is parsed without an exception. One that is not loses its own text and nothing else: the exception is
  caught where the batch is written (`EventDealer.java` line 108), and the next event of the batch is written.
- The columns a key names exist where the key is taken; the code uses what it has not found otherwise.
- Transaction numbers lie between 1 and 2^63 - 1, where Java's overflow at the upper end makes no difference.

## Model

| member | source | states |
|---|---|---|
| MergeTheorems.BeatsTransitive | src/structure/table.cpp:253-271 | the last-writer-wins comparison is transitive |
| MergeTheorems.BeatsTotal | src/structure/table.cpp:253-271 | of two rows with different (source, stamp) exactly one beats the other |
| MergeTheorems.InsertAllIsMaxima | src/structure/table.cpp:77-91 | after any batch the live rows are, per key hash, the maxima of everything stored and everything offered, and each key has one slot |
| MergeTheorems.InsertOrderIrrelevant | src/structure/table.cpp:77-91 | two batches with the same rows, in any order and with any repetitions, leave the same live rows |
| MergeTheorems.ReindexIsMaxima | src/structure/table.cpp:295-305 | the one-pass rebuild of the index leaves exactly the per-key maxima of the rows that were live |
| MergeTheorems.ReindexSlot | src/structure/table.cpp:295-305 | a slot holds a row after the rebuild exactly when it was the first live slot with its key, and that row is the only maximum for the key |
| MergeTheorems.ReindexKeepsAll | src/structure/table.cpp:295-305 | a rebuild under a key that tells all live rows apart changes nothing |
| MergeTheorems.MergeEarly | src/structure/table.cpp:102-110 | rows merged early under a finer key can be replaced by all of them in a later merge under a coarser one |
| MergeTheorems.MapReindex | src/structure/table.cpp:295-305 | rebuilding commutes with reading rows through the column mapping |
| Newest.InsertNewest | src/structure/table.cpp:248-273 | after a batch, of every key the row stays whose updated_at is latest; of equal ones that of the source with the lower number, and of those the one that came last |
| Newest.ReindexNewest | src/structure/table.cpp:295-305 | and so after a rebuild |
| Newest.RunNewest | src/worker_impl/subworker.cpp:12-29 | and so after a run, told by the values in the key columns: of all rows live at a state or delivered since, while no statement parts merged rows |
| Newest.WorkerNewest | src/worker_impl/subworker.cpp:12-29 | and so after the states of a worker |
| Text.LessParts | src/structure/table.cpp:267 | texts are compared as std::string does: at the first position where they part |
| TableEngine.UniqueIndex.CheckRow | src/structure/table.cpp:248-273 | 0 exactly when the key is new, 1 exactly when the row beats the one stored; the winner then has the slot, the hash entry and the back-pointer, and otherwise no entry, slot or back-pointer changes |
| TableEngine.UniqueIndex.ReCompute | src/structure/table.cpp:295-305 | the in-place rebuild, which replaces earlier slots and nulls the current one while it scans, computes the specified rebuild and leaves the hash a bijection onto the live slots |
| TableEngine.UniqueIndex.DeleteCol | src/structure/table.cpp:327-334 | a key that loses a column is rebuilt under the columns that are left; other keys stay as they were |
| TableEngine.UniqueIndex.Named | src/structure/table.cpp:275-286 | the index resolves its columns by name and is computed over the rows |
| TableEngine.UniqueIndex.Temp | src/structure/table.cpp:288-293 | the temporary index covers every column but updated_at |
| TableEngine.Table.DoRowReplace | src/structure/table.cpp:129-133 | the new row takes the old one's slot and back-pointer; no other slot changes |
| TableEngine.Table.AddColumn | src/structure/table.cpp:21-44 | the physical table keeps its representation invariant and does to its user's view what adding a named column, possibly after another, does to a logical table |
| TableEngine.Table.DropColumn | src/structure/table.cpp:135-153 | the same for dropping a column, with the rebuild of the key that loses it |
| TableEngine.Table.AddUniqueIndex | src/structure/table.cpp:102-110 | the same for adding a key, with both error outcomes; only a key that is taken needs its columns to exist |
| TableEngine.Table.DropUniqueIndex | src/structure/table.cpp:155-170 | the same for dropping a key by primary flag, temporary flag or name |
| TableEngine.Table.ChangeColumn | src/structure/statement.cpp:204-212 | the same for renaming a column and replacing its default |
| TableEngine.Table.InsertRows | src/structure/table.cpp:77-91 | the same for a batch of rows, with the error when there is not exactly one index |
| TableEngine.Table.GetPhyPosArray | src/structure/table.cpp:93-100 | the physical column of every logical one, in column order |
| SchemaTheorems.PlaceColumnFits | src/structure/table.cpp:21-41 | adding a column widens every row by the default at the new position and keeps the table well formed |
| SchemaTheorems.WidenKey | src/structure/table.cpp:21-41 | a row that was widened shows its old value in every column it had |
| SchemaTheorems.NarrowKey | src/structure/table.cpp:147 | a row that was narrowed shows its old value in every column that is left |
| SchemaTheorems.DropUniqueIndexFits | src/structure/table.cpp:155-170 | dropping a key keeps the table well formed, with the maxima under the temporary key if it was the last |
| SchemaTheorems.AddUniqueIndexFits | src/structure/table.cpp:102-110 | adding a key leaves the per-key maxima of the rows that were live |
| SchemaTheorems.FinishDropFits | src/structure/table.cpp:135-153 | the rest of dropping a column keeps the table well formed, with the maxima under the temporary key if no key column is left |
| SchemaTheorems.FillFits | src/structure/statement.cpp:50-61 | every statement that succeeds on a well formed table leaves a well formed table |
| SchemaTheorems.FillAlike | src/structure/statement.cpp:50-61 | a statement cannot tell apart tables with the same columns, keys and set of rows |
| StatementEffects.AddedColumn | src/structure/table.cpp:21-44 | the new column stands behind the one that is named, or last; every row has the default in it, or nothing if there is none, and its old values in the others |
| StatementEffects.AddedColumnKeeps | src/structure/table.cpp:42-43 | and no row is lost, under an injective hash |
| StatementEffects.DroppedColumn | src/structure/table.cpp:135-153 | the first column of that name goes, and every row that stays keeps its other values |
| StatementEffects.ChangedColumn | src/structure/statement.cpp:204-212 | name and default are replaced, the type stays, and so does everything else |
| StatementEffects.AddedKey | src/structure/table.cpp:102-110 | a named key covers the columns it names, in order, and takes the place of a temporary key only |
| StatementEffects.DroppedKey | src/structure/table.cpp:155-170 | a key is dropped by its name or as the primary one, and a temporary one of all columns but updated_at follows |
| StatementEffects.AddedThenDropped | src/structure/table.cpp:155-170 | a key that was added is dropped by its own designation and by no other |
| StatementEffects.CreatedTable | src/structure/statement.cpp:50-61 | CREATE makes the columns and keys it names, or a temporary key, and knows updated_at |
| Runs.RunWellFormed | src/worker_impl/subworker.cpp:12-29 | after every state the table has one key, one slot per key, distinct columns and only rows that were delivered |
| Runs.RunOrderIrrelevant | src/worker_impl/subworker.cpp:12-29 | runs whose states bring the same rows in any order and any interleaving of the sources end with the same columns, keys and rows |
| KeyChanges.FillTempComplete | src/structure/table.cpp:288-293 | every statement keeps a temporary key complete: all columns but updated_at |
| KeyChanges.FewerColumnsRefine | src/structure/table.cpp:102-110 | rows that agree on a key agree on every key with fewer of its columns |
| KeyChanges.CollectThenNarrow | src/structure/table.cpp:102-110 | collecting rows under the temporary key and adding a key afterwards gives the same rows as merging them under that key from the start |
| MergedRuns.FillMerged | src/structure/statement.cpp:50-61 | with an injective hash, a statement that does not widen the key carries the merge of a set of rows to the merge of that set in the new layout |
| MergedRuns.ExactlyMerged | src/structure/statement.cpp:50-61 | with an injective hash, a statement that leaves updated_at alone carries the merge of a set of rows to the merge of that set in the new layout if and only if it parts no two of them that were merged: dropping a key, two rows with that key that differ elsewhere; dropping the only key column, any two rows that differ elsewhere |
| MergedRuns.MergedSince | src/worker_impl/subworker.cpp:12-29 | with an injective hash, from any state of a run on, while no statement parts rows that were merged or touches updated_at, the live rows are the maxima, under the last key, of the rows live at that state and all rows delivered since, carried to the last layout |
| MergedLoss.ExactlyAlwaysMerged | src/worker_impl/subworker.cpp:12-29 | in every run that leaves updated_at alone, every statement leaves the maxima of what was delivered before it if and only if none of them parts rows that were merged |
| MergedLoss.LastStatement | src/worker_impl/subworker.cpp:12-29 | the same for the last statement of a run alone |
| MergedLoss.LostByDrop | src/structure/table.cpp:155-170 | a run that drops its primary key and lacks a row which the key after it would have kept |
| KeyChanges.AddColumnKeepsRows | src/structure/table.cpp:42-43 | under an injective hash a table on a temporary key that gains a column loses no row and moves none |
| KeyChanges.DropUniqueIndexKeepsRows | src/structure/table.cpp:155-170 | under an injective hash dropping a key loses no row and moves none |
| KeyChanges.DropColumnIsMaxima | src/structure/table.cpp:135-153 | dropping one of several key columns leaves the per-key maxima under the narrower key |
| KeyChanges.DropOnlyKeyCollapses | src/structure/table.cpp:327-334 | dropping a key's only column leaves at most one row, because the rebuild under the empty key comes first |
| KeyChanges.DropOnlyKeyMeetsDesign | src/structure/table.cpp:140-149 | that result is the one design.txt describes if and only if all rows agree on every column but the dropped one and updated_at |
| SubWorker.FillCreate | src/structure/statement.cpp:50-61 | a CREATE fills an empty table with its columns and its keys, or the temporary key when it names none |
| SubWorker.FillAddCol | src/structure/statement.cpp:102-105 | ADDCOL places a new column object, or fails and leaves the table as it was when the column to insert after is missing |
| SubWorker.FillDropCol | src/structure/statement.cpp:169-171 | DROPCOL drops the named column, or fails and leaves the table as it was |
| SubWorker.FillDropIndex | src/structure/statement.cpp:177-179 | DROPINDEX drops the primary key or the key of that name, and nothing if there is none |
| SubWorker.FillAddIndex | src/structure/statement.cpp:224-227 | ADDINDEX puts a named key in the place of a temporary one, and fails and leaves the table as it was when the key is not temporary or not the only one |
| SubWorker.InsertFile | src/worker_impl/subworker.cpp:21-26 | one file's lines are merged in order under the one key, and the stamp moves on by their number |
| SubWorker.WorkState | src/worker_impl/subworker.cpp:12-29 | one turn of the loop is the statement and then the rows of both files |
| SubWorker.FillToTable | src/structure/statement.cpp:102-227 | a CREATE or ALTER applied to the table objects does what the logical statement does, errors included |
| SubWorker.ParseLine | src/utils/datparser.cpp:26-29 | a line becomes a row with its i-th field in slot insPos[i] and nothing in the other slots |
| SubWorker.ParseData | src/utils/datparser.cpp:19-34 | every line becomes one row, in order, with consecutive stamps |
| SubWorker.TraceStatement | src/worker_impl/subworker.cpp:56-66 | a CREATE after state 0 changes nothing |
| SubWorker.Work | src/worker_impl/subworker.cpp:12-29 | the loop over states, files and the table objects computes the logical run over the delivered lines |
| SubWorker.StagesApart | src/utils/datparser.cpp:29 | the stamps of a run give every row of a source its own (source, stamp) |
| SubWorker.StatesAreRun | src/worker_impl/subworker.cpp:12-29 | what the worker computes is a run in the sense of Runs, so what is proved of runs holds of it |
| RowText.Convert | extfetcher/src/EscapeConvert.java:2-9 | the quote is escaped and nothing else |
| RowText.ParseOneRow | extfetcher/src/RowParser.java:35-67 | the row's quoted fields with the last comma turned into a line break; the failure on an empty builder |
| RowText.RowIsLine | extfetcher/src/RowParser.java:42-65 | written that way, a row is one line of quoted fields separated by commas |
| RowText.ParseEscaped | src/utils/escapedstr.cpp:6-20 | the index loop puts the i-th field into slot insPos[i] and changes no other slot |
| RowRoundTrip.LineRoundTrip | src/utils/escapedstr.cpp:6-20 | a row of at least two values is read back field by field exactly when no value has a backslash and no non-string value a quote |
| RowRoundTrip.FileRoundTrip | src/utils/datparser.cpp:25-31 | a file of rows is read back row by row exactly when, besides, no value has a line break |
| RowFits.SoundFits | src/utils/escapedstr.cpp:6-20 | a row of values in which, read pairwise, no backslash stands before a quote or at the end is written as a line that brings no text past the last column |
| RowFits.ExactlySound | src/utils/escapedstr.cpp:6-20 | those are exactly the values that can stand in any such row without the reader going past its array of positions |
| RowFits.MisfitExample | src/utils/escapedstr.cpp:13-18 | a concrete written row of two values for which the reader goes past it |
| RowPasses.RowFitsExactly | src/utils/escapedstr.cpp:6-20 | for every row: its line brings no text past the last column if and only if its values pass one after the other, each from how the one before it leaves the reader |
| RowPasses.FitsFromFirstUnsound | src/utils/escapedstr.cpp:6-20 | sound values at the beginning of a row do not matter: it fits exactly when the rest from the first unsound value on fits |
| RowPasses.FileFitsExactly | src/utils/datparser.cpp:25-31 | the worker can take a written file without line breaks exactly when each of its rows passes |
| WrittenRows.GatheredClean | src/utils/escapedstr.cpp:6-20 | the fields of one written line are the values' contents exactly when no value has a backslash and no non-string value a quote |
| WrittenRows.WriteThenParse | src/utils/datparser.cpp:26-29 | from the event to the table's row, written and read: value i arrives in slot insPos[i], and the other slots stay empty |
| WrittenRows.WrittenFileFits | src/utils/datparser.cpp:25-31 | every line of a written file of such values fits, as the worker takes for granted |
| WrittenRows.WrittenFile | src/utils/datparser.cpp:19-34 | the records of a written file are the writer's rows, in order and with consecutive stamps, exactly when no value holds a backslash, a line break or an unescaped quote |
| WrittenRows.EveryRowCounts | src/worker_impl/subworker.cpp:12-29 | every row that either source writes for a state is among the rows of the state, under its source and the number of rows that the source had delivered before |
| Lines.SplitUnlines | src/utils/iohelper.cpp:7-12 | written lines are read back as they were exactly when none contains a line break |
| PipelineSafety.OpenCommutes | extfetcher/src/EventDealer.java:177-192 | opening a table's next file and writing pending rows commute when those rows add nothing to that table |
| PipelineSafety.WriteOneStep | extfetcher/src/EventDealer.java:104-107 | the write-back worker keeps the invariant in every binlog; where tables are opened before their rows, it keeps files plus pending rows equal to the sequential result |
| PipelineTheorems.StepKeeps | extfetcher/src/EventDealer.java:100-137 | every step of every thread keeps the pipeline invariant in every binlog, and, where tables are opened before their rows, keeps files plus pending rows equal to the sequential result unless it opens a file under rows that are on the way |
| PipelineTheorems.CompleteRun | extfetcher/src/EventDealer.java:100-137 | where tables are opened before their rows, a complete schedule leaves the files of the one-at-a-time reading if and only if it never opens a table's next file while that table has text on the way |
| PipelineTheorems.EveryState | extfetcher/src/EventDealer.java:100-137 | in every binlog every reachable state satisfies the invariant; if tables are opened before their rows, files plus pending rows equal the sequential result exactly as long as no opening overtook a row |
| PipelineTheorems.SafeSchedule | extfetcher/src/EventDealer.java:118 | if moreover undrained statements only open new tables, every complete schedule leaves the sequential files |
| PipelineTheorems.DrainedMeans | extfetcher/src/EventDealer.java:118 | everything is drained but BEGIN, COMMIT and texts with create in small or capital letters |
| PipelineProgress.StepDecreases | extfetcher/src/EventDealer.java:36-42 | every step lowers one number made of remaining events, queued tasks and unwritten rows |
| PipelineProgress.RunsAreBounded | extfetcher/src/EventDealer.java:100-137 | every schedule is over after at most 20 steps per event and a constant |
| PipelineProgress.NeverStuck | extfetcher/src/LimitedQueue.java:11-21 | in every unfinished state that satisfies the invariant, and so in every reachable one, some thread can move, though the queues are bounded and their offers block |
| PipelineProgress.StopsAtTheEnd | extfetcher/src/EventDealer.java:210-216 | for every binlog, a schedule that cannot go on has processed the whole binlog and has nothing pending |
| PipelineProgress.OneMore | extfetcher/src/EventDealer.java:100-137 | for every binlog, an unfinished schedule has a next step |
| PipelineProgress.Completes | extfetcher/src/EventDealer.java:210-216 | for every binlog, every schedule can be carried to the end |
| PipelineProgress.SequentialSegments | extfetcher/src/EventDealer.java:50-62 | in the sequential result, file k of a table is its row texts between opening statements k and k + 1, and the count written at the end is the number of opening statements |
| PipelineProgress.FilesOfARun | extfetcher/src/EventDealer.java:177-192 | where tables are opened before their rows, the same for every complete schedule in which no opening overtook a row: none lost, doubled or in a neighbouring file |
| PipelineExact.RisklessIsClear | extfetcher/src/EventDealer.java:36-42 | at most one unfinished batch, two queued and one being written can be on the way, so in a binlog without a risky statement no schedule lets an opening overtake a row |
| PipelineExact.LazyRun | extfetcher/src/EventDealer.java:100-137 | some schedule puts off writing so long that exactly those rows are on the way at any given event |
| PipelineExact.ExactlyClear | extfetcher/src/EventDealer.java:118 | in every binlog: no schedule lets an opening overtake a row if and only if no undrained statement opens the next file of a table with text among those rows |
| PipelineExact.ExactlyRiskless | extfetcher/src/EventDealer.java:118 | in a binlog that opens tables before their rows, every complete schedule leaves the sequential files under exactly that condition |
| PipelineExact.AlterCanOvertakeRows | extfetcher/src/EventDealer.java:118 | a concrete binlog, with an ALTER whose text contains "create", and a complete schedule of it that leaves the wrong files |
| PipelineLoss.ExactlyEndangered | extfetcher/src/EventDealer.java:100-112 | a row event is lost in some complete schedule if and only if it, or an earlier row event of its batch, belongs to a table that is not open when the batch is handed over |
| PipelineLoss.RowLost | extfetcher/src/EventDealer.java:107 | a concrete binlog, with a row of a table that is never opened, and a complete schedule that loses the row of another table |
| PipelineLoss.BatchSizes | extfetcher/src/EventDealer.java:133-134 | a batch has 40 rows, but for those that a drained statement or the end of the binlog calls for |
| PipelineLoss.OnHand | extfetcher/src/EventDealer.java:118-131 | at most 40 rows wait for the parse workers, 20 after the first drained statement, 4 are parsed and 2 batches wait |
| PipelineLoss.TakesMore | extfetcher/src/LimitedQueue.java:11-21 | with less on hand, one more is taken |
| Bits.ReflectUnsigned | thirdparty/boost/include/boost/crc.hpp:383-397 | the pairwise flipping loop reverses the low bits of a word and leaves the others |
| CrcDivision.StepsAppend | thirdparty/boost/include/boost/crc.hpp:548-576 | data can be submitted piecemeal |
| CrcDivision.StepsLinear | thirdparty/boost/include/boost/crc.hpp:548-576 | division is linear in register and message |
| CrcDivision.ManySteps | thirdparty/boost/include/boost/crc.hpp:1150-1156 | several division steps are a shift and one correction that depends only on the bits that meet |
| CrcDivision.AugStepsSplit | thirdparty/boost/include/boost/crc.hpp:1125-1132 | the same for long division |
| CrcDivision.Augmenting | thirdparty/boost/include/boost/crc.hpp:667-692 | long division followed by a register of zero bits is the unaugmented division |
| CrcDivision.ChecksumCheck | thirdparty/boost/include/boost/crc.hpp:2264-2276 | long division of a message and a checksum leaves zero if and only if the checksum is the message's CRC |
| CrcDivision.LongDivision | thirdparty/boost/include/boost/crc.hpp:667-692 | the loop computes quotient and remainder: message = quotient * divisor + remainder over the field of two elements |
| CrcDivision.DivisionUnique | thirdparty/boost/include/boost/crc.hpp:667-692 | and no other quotient and remainder satisfy that |
| Crc.ModuloWordUpdate | thirdparty/boost/include/boost/crc.hpp:548-576 | the masked loop divides the low bits of a word in the order the reflect flag asks for |
| Crc.AugmentedModuloWordUpdate | thirdparty/boost/include/boost/crc.hpp:667-692 | the same for the augmented loop |
| Crc.MakePartialXorProductsTable | thirdparty/boost/include/boost/crc.hpp:966-985 | all 256 entries, reflected or not, are the effect of their byte on an empty register |
| Crc.DirectByte | thirdparty/boost/include/boost/crc.hpp:1141-1156 | one table step is eight division steps |
| Crc.ReflectedByte | thirdparty/boost/include/boost/crc.hpp:1234-1250 | one reflected table step is eight division steps on the reflected register |
| Crc.AugmentedByte | thirdparty/boost/include/boost/crc.hpp:1120-1132 | one augmented table step is eight long division steps, with the same table |
| Crc.DirectUpdate | thirdparty/boost/include/boost/crc.hpp:1141-1159 | the direct table driver computes the bit-wise remainder of every byte string |
| Crc.ReflectedUpdate | thirdparty/boost/include/boost/crc.hpp:1234-1253 | so does the reflected one, on reflected registers |
| Crc.AugmentedUpdate | thirdparty/boost/include/boost/crc.hpp:1110-1135 | so does the augmented one, for long division |
| CrcComputers.CrcBasic.ProcessBits | thirdparty/boost/include/boost/crc.hpp:1761-1779 | the low bits of a byte are divided from the highest down |
| CrcComputers.CrcBasic.ProcessBytes | thirdparty/boost/include/boost/crc.hpp:1791-1872 | a block is divided bit by bit in the order the parameters ask for |
| CrcComputers.CrcBasic.Checksum | thirdparty/boost/include/boost/crc.hpp:1888-1897 | the remainder, reflected and masked as the parameters say |
| CrcComputers.CrcOptimal.ProcessBytes | thirdparty/boost/include/boost/crc.hpp:2087-2100 | the table-driven object's interim remainder changes exactly as the bit-wise one's |
| CrcComputers.CrcOptimal.Checksum | thirdparty/boost/include/boost/crc.hpp:2103-2114 | and its checksum is the same function of that remainder |
| CrcComputers.ComputeCrc | thirdparty/boost/include/boost/crc.hpp:2216-2230 | the checksum of a block, for every polynomial, initial value, mask and reflection |
| CrcComputers.AugmentedCrc | thirdparty/boost/include/boost/crc.hpp:2281-2294 | the augmented CRC of a block is its long division remainder |
| CrcTheorems.StepsIsRemainder | thirdparty/boost/include/boost/crc.hpp:548-576 | from a zero register the result is the one remainder of the message moved up by the register's width |
| CrcTheorems.InitialRemainder | thirdparty/boost/include/boost/crc.hpp:548-576 | an initial value is the same as flipping the first bits of the message |
| CrcTheorems.AugmentedBlock | thirdparty/boost/include/boost/crc.hpp:2264-2276 | for blocks of bytes: appended zero bytes give the CRC, and appended checksum bytes, the highest first, give zero exactly when they are right |
| CrcTheorems.BurstDetected | thirdparty/boost/include/boost/crc.hpp:548-576 | with a divisor whose constant term is 1, no burst error of at most the register's width keeps the CRC |
| CrcChecksums.InputIsBlock | thirdparty/boost/include/boost/crc.hpp:1791-1872 | the bits of a block, byte by byte, from the lowest bit of each on if the input is reflected and else from the highest |
| CrcChecksums.ChecksumIsRemainder | thirdparty/boost/include/boost/crc.hpp:2216-2230 | every bit of the checksum is the bit of the one remainder that message and initial value leave, from the other end if the remainder is reflected, flipped where the final mask has a one |
| CrcChecksums.FinalMask | thirdparty/boost/include/boost/crc.hpp:1888-1897 | the final mask flips just its own bits |
| CrcChecksums.BurstChangesChecksum | thirdparty/boost/include/boost/crc.hpp:2216-2230 | no burst error of at most the register's width keeps the checksum |
| Intervals.AddToAdds | extfetcher/src/GtidSet.java:223-247 | adding a number adds just that number, keeps the list sorted and disjoint, and keeps it canonical if it was |
| Intervals.JoinedGaps | extfetcher/src/GtidSet.java:252-260 | joining around an index restores the gaps there and keeps those elsewhere |
| Intervals.AddAllIs | extfetcher/src/GtidSet.java:223-247 | every run of additions from empty gives the canonical list of exactly the numbers added |
| Intervals.AddOrderIrrelevant | extfetcher/src/GtidSet.java:223-247 | two runs give the same list if and only if they add the same numbers |
| Intervals.WithinExact | extfetcher/src/GtidSet.java:323-334 | against a canonical list the nested loops decide set inclusion exactly |
| Intervals.ExactlyCanonical | extfetcher/src/GtidSet.java:323-334 | the sorted lists against which they decide it for every list are exactly the canonical ones |
| Intervals.CanonicalUnique | extfetcher/src/GtidSet.java:344-354 | canonical lists with the same numbers are equal |
| Intervals.AdoptedCanonical | extfetcher/src/GtidSet.java:215-221 | a list taken over by the constructor is canonical if and only if every pair of neighbours but the first has a gap |
| GtidSets.UUIDSet.FindInterval | extfetcher/src/GtidSet.java:265-283 | the binary search finds the number of intervals that end before the value |
| GtidSets.UUIDSet.JoinAdjacentIntervals | extfetcher/src/GtidSet.java:252-260 | the loop joins around the index |
| GtidSets.UUIDSet.Add | extfetcher/src/GtidSet.java:223-247 | the set gains just the number, the result says whether it was new, and sortedness and canonical form are kept |
| GtidSets.UUIDSet.IsContainedWithin | extfetcher/src/GtidSet.java:308-336 | every interval lies in one of the other set's intervals, with the null and other-server outcomes |
| GtidGrammar.CaseIgnored | extfetcher/src/GtidSet.java:308-316 | names are compared letter by letter, capitals or not |
| GtidSets.GtidSet.AddGtid | extfetcher/src/GtidSet.java:132-141 | exactly the parsed transaction is added, to its server's set and to no other; a malformed one changes nothing |
| GtidSets.GtidSet.IsContainedWithin | extfetcher/src/GtidSet.java:150-167 | containment server by server, with the null outcome and the shortcut for equal sets |
| GtidSets.GtidSet.ContainedIsSubset | extfetcher/src/GtidSet.java:150-167 | it is always sound, and against canonical sets it is exactly inclusion together with every server being named |
| GtidSets.GtidSet.ExactlyCanonicalSets | extfetcher/src/GtidSet.java:150-167 | the sets against which containment decides inclusion for every choice of lists are exactly those with canonical lists |
| GtidSets.GtidSet.ParsedMissed | extfetcher/src/GtidSet.java:150-167 | two sets read from text, one of them within the other, for which containment says no |
| GtidSets.GtidSet.EqualIsSameSet | extfetcher/src/GtidSet.java:175-184 | canonical sets are equal exactly when they name the same servers and hold the same transactions |
| GtidSets.GtidSet.NonEmptyServers | extfetcher/src/GtidSet.java:150-167 | without empty entries inclusion of the transactions already gives inclusion of the servers |
| GtidSets.GtidSet.PutUUIDSet | extfetcher/src/GtidSet.java:124-126 | a server's set is replaced in its place or appended |
| GtidSets.GtidSet.GetCommandPackage | extfetcher/src/GtidSet.java:88-108 | the package of the set's entries in order, or the failure of the first name that is not hexadecimal |
| GtidSets.GtidSet.ToString | extfetcher/src/GtidSet.java:187-204 | the text of the entries in order |
| GtidSets.GtidSet.FromText | extfetcher/src/GtidSet.java:48-69 | the constructor's loops compute the specified parse, with its failures |
| GtidPackage.HexToByteArray | extfetcher/src/GtidSet.java:110-116 | pairs of digits become bytes; odd length and other characters fail |
| GtidPackage.GetCommandPackage | extfetcher/src/GtidSet.java:88-108 | the loops write size, counts, identifiers and half-open intervals |
| GtidPackage.PackageRoundTrip | extfetcher/src/GtidSet.java:88-108 | the package has the size it states, and a reader of the size and of the COM_BINLOG_DUMP_GTID block recovers identifiers and intervals in order; sizes that need more than four bytes are the only exception |
| GtidPackage.SidNames | extfetcher/src/GtidSet.java:110-116 | an identifier determines its server's name but for dashes and the case of letters |
| GtidPackage.SignedPairs | extfetcher/src/GtidSet.java:110-116 | a digit behind a sign counts as one byte |
| GtidGrammar.DashesGo | extfetcher/src/GtidSet.java:100 | a name is sent without its dashes and with everything else |
| GtidPackage.Resolve | extfetcher/src/GtidResolver.java:4-12 | the bytes after the size, as hexadecimal text |
| GtidPackage.RetrieveGtidPackage | src/external/extfetcher.cpp:102-112 | the extraction loop reads the hexadecimal numbers of the text |
| GtidPackage.HexTextRoundTrip | src/external/extfetcher.cpp:105-111 | the text brings every byte across unchanged |
| GtidPackage.HexTextAt | extfetcher/src/GtidResolver.java:4-12 | two digits for each byte, the letters in capitals, and a space |
| GtidGrammar.TextIsSent | extfetcher/src/GtidSet.java:48-108 | from text to package: a text of the grammar is sent as the identifiers and intervals it names |
| GtidText.TextRoundTrip | extfetcher/src/GtidSet.java:48-69 | parsing the text of a set gives the set back if and only if no server's list is empty or begins with two touching intervals |
| GtidText.CanonicalRoundTrip | extfetcher/src/GtidSet.java:187-204 | in particular for canonical non-empty lists |
| GtidGrammar.GrammarRead | extfetcher/src/GtidSet.java:48-69 | every text of the grammar, with single numbers or both ends, leading zeros and line breaks anywhere, is read as the servers and intervals it names |
| GtidGrammar.NumbersRead | extfetcher/src/GtidSet.java:48-69 | and so as the same numbers for every server |
| GtidGrammar.NamedAgain | extfetcher/src/GtidSet.java:67 | when a server is named again, its last list counts |
| GtidGrammar.LongExactly | extfetcher/src/GtidSet.java:60 | a decimal number is read as it is, exactly if it fits the type |
| GtidGrammar.BeyondInterval | extfetcher/src/GtidSet.java:57-65 | a third number of an interval does not count |
| GtidGrammar.GtidRead | extfetcher/src/GtidSet.java:132-135 | a server's name, a colon and a number are read as that server and number |
| GtidGrammar.WrittenEntry | extfetcher/src/GtidSet.java:187-204 | what is written for a server is of the grammar |
| GtidText.ParsedDecides | extfetcher/src/GtidSet.java:48-69 | a list read from the text of a set decides inclusion if and only if every pair of its neighbours but the first has a gap |
| GtidText.ParsedMissed | extfetcher/src/GtidSet.java:323-334 | for any other text there is another one whose list lies within the list read, without the nested loops seeing it |
| GtidText.MissedExample | extfetcher/src/GtidSet.java:323-334 | u:5-6 against u:4-4:5-5:6-7 |
| Ddl.DealCreateTable | extfetcher/src/DDLCompatWriter.java:31-88 | the lines of a CREATE, with quotes stripped and keys without a type neither counted nor written |
| Ddl.DealAlterTable | extfetcher/src/DDLCompatWriter.java:90-195 | the lines of an ALTER's first item, or the failure of writing it |
| Ddl.WriteDdlCompat | extfetcher/src/DDLCompatWriter.java:15-29 | the text of a .ddl file for any statement |
| LineReader.IOHelper.GetLine | src/utils/iohelper.cpp:7-12 | the next line, or an empty one when the stream is exhausted |
| LineReader.IOHelper.GetLineInt | src/utils/iohelper.cpp:14-18 | the next line as an int, or the failed cast |
| DdlReader.GetCreate | src/structure/statement.cpp:8-30 | the nested counted loops read columns and keys |
| DdlReader.GetAlter | src/structure/statement.cpp:68-83 | the six kinds of item and the error for any other |
| DdlReader.GetStatement | src/structure/statement.cpp:151-156 | the two kinds of statement and the error for any other |
| DdlRoundTrip.DdlRoundTrip | extfetcher/src/DDLCompatWriter.java:31-195 | what is written for a statement without line breaks is read as that statement, to the last line but for the blank one after an added column's position |
| DdlRoundTrip.ReadExactly | src/structure/statement.cpp:68-83 | of the statements without line breaks that are written, the reader fails for those that mean nothing here, and for no others |
| DdlRoundTrip.OthersFail | src/structure/statement.cpp:82 | any other kind of statement or of item is refused |
| DdlMeanings.CreateMeans | extfetcher/src/DDLCompatWriter.java:31-88 | a CREATE comes to its columns and typed keys, in order, with names and defaults without their quotes |
| DdlMeanings.AlterAdds | extfetcher/src/DDLCompatWriter.java:95-121 | an ALTER whose first item adds a column adds that one, named as it is written, with its default without quotes, behind the column that AFTER names without quotes |
| DdlMeanings.AlterMeans | extfetcher/src/DDLCompatWriter.java:123-192 | each other kind of item, by the statement it comes to; items after the first do not count |
| DdlMeanings.DefaultArrives | extfetcher/src/DDLCompatWriter.java:113 | a default without quotes in it arrives the same with quotes around it and without |
| DdlMeanings.PrimaryKeyDropped | extfetcher/src/DDLCompatWriter.java:140-155 | DROP PRIMARY KEY undoes ADD PRIMARY KEY |
| DdlPlaces.AddedFirst | extfetcher/src/DDLCompatWriter.java:116-121 | ADD COLUMN ... FIRST adds the column at the end; the order of the columns is the one asked for only if they are all the same |
| DdlQuotes.ExactlyHarmless | extfetcher/src/DDLCompatWriter.java:90-195 | an ALTER item has the same outcome as the item with its names unquoted if and only if, kind by kind, none of the quoted names matters to the table |
| DdlQuotes.QuotedKeys | extfetcher/src/DDLCompatWriter.java:160-172 | the columns of an added key are found exactly when each is known as it is written; in a table without quoted columns, exactly when none is quoted |
| DdlQuotes.CreatedQuoteFree | extfetcher/src/DDLCompatWriter.java:31-88 | a table made by CREATE has no quoted column |
| DdlQuotes.QuotedFails | extfetcher/src/DDLCompatWriter.java:123-128 | dropping or changing a column of such a table by a quoted name fails |
| DdlQuotes.AddedQuoted | extfetcher/src/DDLCompatWriter.java:95-121 | a column added by a quoted name keeps its quotes, so AFTER, which strips them, finds it only if another column has the name without them |
| DdlQuotes.QuotedExample | extfetcher/src/DDLCompatWriter.java:123-128 | id can be dropped as id and not as `id` |
| QuotedText.QuotedToStream | src/utils/escapedstr.cpp:22-30 | a quoted value with its quotes escaped |
| QuotedText.LiteralRoundTrip | src/utils/escapedstr.cpp:22-30 | MySQL (Reference Manual, section 9.1.1) reads the literal as the value if and only if every backslash in it stands before a percent sign or an underscore; otherwise it reads another value |
| Dump.DumpToFile | src/structure/table.cpp:112-127 | for the rows in whatever order they stand: one line per stored row, each value as its user sees it, defaults left to the database |
| Dump.SortAndDump | src/worker_impl/subworker.cpp:32-36 | sorting the rows of a merged table, which leaves their back-pointers behind, and writing them gives the lines of the merged table in the order of the sorted rows |
| Dump.SortedLines | src/structure/table.cpp:112-127 | rows in another order give the same lines in another order |
| Pusher.NullsExactly | src/worker_impl/pusher.cpp:65 | the replacement turns exactly the sentinel cells into null and leaves all others alone if and only if no written value ends in a quote and the sentinel |
| Pusher.ReadHeader | src/worker_impl/pusher.cpp:50-59 | the statement header with the column names in order |
| Pusher.PushFromFile | src/worker_impl/pusher.cpp:60-78 | the statements sent are the rows up to the first blank line, in batches |
| Pusher.BatchesAre | src/worker_impl/pusher.cpp:71-78 | batches are non-empty, at most the threshold or 1 long, all but the last full, and together the rows in order |
| PushTheorems.AllRowsPushed | src/worker_impl/pusher.cpp:64-70 | every stored row of a table with columns is pushed if and only if no written value has a line break |
| PushTheorems.RowIsRead | src/worker_impl/pusher.cpp:65-69 | the database reads a pushed row as the row's values, null for the sentinel, if and only if no written value ends in a quote and the sentinel, and every backslash of a value other than the sentinel stands before a percent sign or an underscore |
| PushedRows.RowArrives | src/worker_impl/pusher.cpp:65-69 | the database holds a pushed row as it was in the merged table, null for the sentinel and the default where the value is the default, if and only if its values are good; where the sentinel is the default, the default is stored |
| PushedRows.EventArrives | src/structure/table.cpp:112-127 | a null of a row event arrives as null and any other value as itself, from the event through file, table, dump and push |
| PushedStatements.StatementIsRead | src/worker_impl/pusher.cpp:50-69 | a statement is read back as its table, its columns and its rows |
| PushedStatements.TableArrives | src/worker_impl/pusher.cpp:50-82 | the statements of a push are all for the table and its columns, have the size the threshold asks for, and together bring each stored row once, in order, with its values |
| RowOrder.SingleIsStrictWeak | src/structure/table.cpp:192-200 | the single-column comparator is a strict weak order, as std::sort requires |
| RowOrder.DoubleIsStrictWeak | src/structure/table.cpp:209-219 | so is the one for an integer and a character column |
| RowOrder.SingleMeans | src/structure/table.cpp:192-200 | null rows come first; of two numbers the smaller, of other texts the shorter or the earlier one |
| RowOrder.DoubleMeans | src/structure/table.cpp:209-219 | null rows come first, then smaller numbers; rows with the same number stand in the order of their second texts |
| RowOrder.NumericOrder | src/structure/table.cpp:10-15 | on canonical decimals length-then-text order is the order of the numbers |

## Left out

- Freeing memory, printing, logging, timing, files and directories, the JVM, connections and configuration.
- Canal and druid: row events and syntax trees are inputs, as `RowText.Value`, `Pipeline.Event` and `Ddl.Tree`.
- DROP DATABASE in the event pipeline (`EventDealer.java` lines 203-208), which closes every table's writer.
- The 60-minute limits of the waits, interrupts, and the Java memory model.
- `std::sort` itself, whose outcome is a parameter of `Dump.SortAndDump`, and the comparator that casts to float.
- The `nameToColDes` map, which is written and never read.
- Overflow of the C++ stamps and counters.
- Sub-byte table drivers of the CRC header, and registers wider than the CRC.
- Objects shared between lists of intervals: an interval is a value here, so a list that is changed through another list's
  interval object is not modelled.
- Digits and letters outside ASCII in number parsing and in the comparison that ignores case.
- TableEngine.Table.DropColumn: asks for exactly one index, which every run has between statements, and does not drop `updated_at`, whose object the source then goes on using although it is no longer a column.
- SubWorker.FillDropCol: the same restriction as TableEngine.Table.DropColumn.
- SubWorker.FillToTable: the same restriction, and a key that is taken names columns that exist; DdlQuotes.QuotedKeys says when.
- TableEngine.Table.AddUniqueIndex: a key that is taken names columns that exist, as the source dereferences the end of its list otherwise, and each column once, as MySQL refuses a key that repeats one.
- PipelineTheorems.CompleteRun: binlogs that open a table before its rows. In others a late write can put a row into a file that is opened only after it, and equal text can make up for a lost row, so files alone do not tell; PipelineLoss.ExactlyEndangered follows each row instead.
- PipelineTheorems.SafeSchedule: the same binlogs as PipelineTheorems.CompleteRun.
- PipelineTheorems.StepKeeps: its second clause, the same binlogs.
- PipelineSafety.WriteOneStep: its second clause, the same binlogs.
- PipelineProgress.FilesOfARun: the same binlogs.
- PipelineExact.ExactlyRiskless: the same binlogs; PipelineExact.ExactlyClear is about all.
- CrcComputers.CrcOptimal.ProcessBytes: for CRCs of at least eight bits, as are CrcComputers.ComputeCrc and AugmentedCrc.
- GtidSets.GtidSet.AddGtid: the named server's list is sorted, as are all that MySQL reports and all that grow from empty; on others the source's binary search means nothing.
- RowText.ParseEscaped: lines that bring no text past the last column; past it the source writes outside its array. The same holds for SubWorker.ParseLine, ParseData, InsertFile, WorkState and Work; RowFits.ExactlySound says which values can bring it about.
- GtidPackage.RetrieveGtidPackage: tokens with a `0x` prefix or a sign, which the sender never writes, are not modelled.
- Ddl.DealAlterTable: what is left in the file when an exception ends the writing is not modelled.
- KeyChanges.AddColumnKeepsRows: needs an injective hash, because a collision under the wider key would merge rows.
