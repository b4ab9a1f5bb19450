# A verified model of the partitioned event store

The crate keeps one append-only event stream per partition in a directory of database files. Each
file holds a stretch of the stream and its own append head; a separate catalog database says which
versions each file covers. This project models that store and what is built on it, and proves that
it behaves as one sequence of events numbered 1, 2, 3, ... `dafny verify dfyconfig.toml` checks
everything.

## What is modelled

- **Names** (`TextOrder`, `Digits`, `Calendar`, `PartitionNames`): flooring a time to its window,
  Gregorian day numbers and dates, printing the start and the overflow ordinal as a file name, the
  file-name pattern, and reading a name back.
- **One event file** (`EventFiles`): its rows, its head, the append transaction under the table's
  PRIMARY KEY and UNIQUE constraints with a database fault at any statement, and the cursor queries.
- **The store as a state machine** (`VersionOrder`, `PartitionStore`, `StoreSteps`, `StoreRuns`):
  durable state is the catalog table and the event files, volatile state is the active file and how
  far an initialisation or a rotation has come. Each step is one database transaction, statement or
  file creation. A crash can fall between any two steps, and while the store is closed the catalog
  can be replaced by anything that does not have exactly one unsealed row. The log is not a history
  variable: it is what the files hold, read in version order.
- **Reads** (`StoreReads`, `EventReads`, `Paging`, `StreamReads`): a read takes the catalog rows at one
  instant of a run and queries each file at a later instant, with any steps between. The two read
  loops are methods over the run and those instants. Successive reads along a run are put together.
- **Recovery and rotation as wholes** (`Recovery`, `Rotations`, `StaleClock`).
- **What reads give outside the invariant** (`CatalogReads`, `AnyClock`, `TrustedCatalogs`): a read of
  any files under any catalog, the exact condition for all reads to be right, and from it exactly
  which rotations and which openings lose events.
- **The objects that change in place** (`CatalogTable`, `EventStreams`): the catalog database and the
  event stream with its active file, as classes whose methods are proved against the functions of
  the state machine.
- **The worker pool** (`WorkerPool`, `PoolTermination`, `PoolWorkers`): supervisor, tasks, senders and
  appenders as a state machine, a measure of what is left to do, and the supervisor's event handlers
  and loop and the drain loop as methods.
- **The smaller stateful pieces** (`LeastRecent`, `StoreCache`, `DatabasePools`, `Notifications`).

## What the proofs rest on

These are the conditions the code relies on. Where the code does not itself establish one, the
project says exactly what depends on it.

1. One event stream object owns a partition store; its clones share it.
2. A rotation's clock reading is from 1970 on and does not fall in a window before the active one.
   `append` reads the clock before it takes the lock (`src/event_stream.rs:353-359`), so the code
   does not establish this. What happens at any reading at all is proved apart from the state
   machine: all reads stay right after a rotation if and only if the file it takes up is new, or
   empty, or already has the log's head (`AnyClock.StoreRotationServesExactly`), which the condition
   on the clock makes sure of; `AnyClock.AnyClockServes` extends this to whole runs of appends and
   rotations. `StaleClock.ReadSkipsAnEvent` is a run in which a page passes over an event for good,
   and `AnyClock.FallingBackCosts` shows that a rotation into a new file of an earlier window loses
   nothing by itself, but the next rotation after an append there does.
3. The window is fixed across reopenings and is a whole number of the units its label shows:
   minutes below one hour, hours below one day, days otherwise.
   `PartitionNames.WindowsRoundTripExactlyWhenAligned` proves that names give back all window starts
   if and only if this holds.
4. A transaction or a single statement is atomic, and so is creating a file with its head row.
5. An error in the middle of a rotation is followed by a reopening.
6. A generated event id is new: it is not used and not referred to by any stored or new event.

Times are whole milliseconds (whole seconds for notifications), taken as parameters. Database faults
and failing tasks are chosen freely by the environment.

Two places where comments and code differ, modelled as the code has them. The database pool is said
to evict when it is full, but `evict_old_databases` returns without evicting until the cache has
exceeded its maximum (`src/pool.rs:134-137`, `src/pool.rs:197-199`), so it holds up to one more. And
stale or missing catalog rows are to be repaired on open (`docs/explanation/architecture.md:295`), but
a catalog with exactly one unsealed row is trusted whatever its rows say
(`src/event_stream.rs:184-187`): `TrustedCatalogs.TrustedCatalogLosesAnEvent` gives a catalog without
one row, after which an event is not read any more and its version is issued a second time, and
`TrustedCatalogs.OpeningServesExactly` says exactly which catalogs open to the log.

## Model

| member | source | states |
|---|---|---|
| TextOrder.PrefixDecides | src/event_stream.rs:192-196 | byte order of names is decided by the first differing blocks of one length |
| Digits.ParsePad | src/rotation.rs:42-63 | numbers printed zero-padded at a width are read back as themselves |
| Digits.PadParse | src/rotation.rs:88-134 | digits that were read are printed again exactly, leading zeros included |
| Digits.PadOrder | src/rotation.rs:42-78 | numbers printed at one width compare as text exactly as they compare as numbers |
| Calendar.DateOf | src/rotation.rs:34-38 | the date of a day number is a valid Gregorian date with that day number |
| Calendar.DateOfDayNumber | src/rotation.rs:155-177 | every valid date from year -9999 to 9999 is the date of its day number |
| Calendar.DayOrder | src/rotation.rs:155-177 | day numbers order dates exactly as year, month and day do |
| Calendar.ValidDates | src/rotation.rs:155-177 | the valid dates are those of the twelve months of 31, 28 or 29, 31, 30 and so on days, with the Gregorian leap rule, in the years -9999 to 9999 |
| Calendar.DayNumberClosedForm | src/rotation.rs:34-38 | the day number of every valid date equals the closed form over years that begin in March |
| PartitionNames.FloorIsWindowStart | src/rotation.rs:28-31 | flooring gives the time less its remainder by the window from 1970 on, and the multiple at or after an earlier time, and an aligned window's label shows it in full |
| PartitionNames.FloorIsTheStart | src/rotation.rs:28-31 | a time floors to a window start if and only if it follows it by less than a window |
| PartitionNames.AlignedExactly | src/rotation.rs:34-63 | aligned windows are whole days from a day on, whole hours from an hour on, and whole minutes below |
| PartitionNames.NameSpeltOut | src/rotation.rs:34-81 | every name spelt out from year, month, day, hour, minute and ordinal, with the label chosen at windows of a day and of an hour |
| PartitionNames.NamesExactly | src/rotation.rs:34-81 | a name is printed if and only if its time is of the years -9999 to 9999 and its ordinal is none or 1 to 999999, and otherwise fails with the error of the first that is not |
| PartitionNames.YearReads | src/rotation.rs:42-48 | a printed year is four characters wide, a minus sign counted, or five, and its digits are read as the year |
| PartitionNames.DocumentedName | src/rotation.rs:66-81 | the first overflow file of 21 May 2026, 10:00, has exactly the documented name |
| PartitionNames.MatchTailAccepts | src/rotation.rs:182-188 | the pattern's tail matches exactly an optional T with two or four digits and then an optional underscore with six digits, and captures those digits |
| PartitionNames.PrintThenParse | src/rotation.rs:66-81 | every printable start and ordinal is printed, and reading the name gives the start cut to the label's unit and the ordinal; a year below 0 cannot be read |
| PartitionNames.RoundTripExactly | src/rotation.rs:179-211 | a name gives back exactly its start and ordinal if and only if the year has no sign and the label shows the whole start |
| PartitionNames.WindowsRoundTripExactlyWhenAligned | src/rotation.rs:28-81 | all window starts survive printing and reading if and only if the window is a whole number of its label's units |
| PartitionNames.ParseThenPrint | src/rotation.rs:179-211 | every accepted name is printed again from what was read of it, by every window of its label class |
| PartitionNames.TextOrderIsTimeOrder | src/rotation.rs:34-81 | names of one window compare as text exactly by start and then by no ordinal before 1 before 2 and so on |
| VersionOrder.Greatest | src/event_stream.rs:189-197 | the file chosen by first version and then name follows every other |
| VersionOrder.SortedInOrder | src/event_stream.rs:222-226 | sorting puts the files in strict order of first version, and of name where that is the same |
| VersionOrder.SortedUnique | src/catalog.rs:131-140 | that order is the only one possible |
| EventFiles.ValidateExpected | src/event_stream.rs:584-608 | an expectation is met exactly by an empty stream, any head, or the exact head other than 0; otherwise the error is that 0 cannot be expected exactly, or the expected and the actual version |
| EventFiles.ConflictIsReported | src/event_stream.rs:366-379 | on any file and whatever the database does, each conflict is reported with its own error, and a database error only comes when the expectation was met |
| EventFiles.VersionIsTaken | src/event_stream.rs:381-392 | a next version already stored makes the append fail as a conflict at that head |
| EventFiles.MinVersionIsLeast | src/event_stream.rs:655-661 | on any rows the first version is the least stored |
| EventFiles.MaxSequenceIsGreatest | src/event_stream.rs:715-724 | on any rows the base sequence is the greatest stored, or 0 |
| EventFiles.SequenceOfRows | src/event_stream.rs:715-724 | on a sound file the greatest sequence is the number of rows |
| EventFiles.FirstOfRows | src/event_stream.rs:655-661 | on a sound file the first version, or the next one when it is empty, continues the files before it |
| EventFiles.InsertsKeepKeys | src/migration.rs:165-195 | whatever is inserted, no two rows come to share an id, a version or a sequence |
| EventFiles.InsertsSucceed | src/event_stream.rs:727-783 | on a sound file a continuing batch never meets a UNIQUE constraint, so the inserts fail only by a database fault |
| EventFiles.AppendOutcome | src/event_stream.rs:360-418 | the append transaction fails with the mismatch on an unmet expectation and with the database's error on a fault, and otherwise adds the batch behind the rows and moves the head to its end |
| EventFiles.SortSorts | src/event_stream.rs:444-446 | sorting by version orders any rows and keeps each of them |
| EventFiles.SelectMembers | src/event_stream.rs:845-894 | a query selects exactly the rows behind the cursor and, for a workflow, only those with its anchor |
| EventFiles.SelectsExactly | src/event_stream.rs:845-894 | it selects each of those rows once and in stored order |
| EventFiles.QuerySorts | src/event_stream.rs:845-894 | however rows are stored, a query gives them in version order and within its limit |
| EventFiles.QueryOfFile | src/event_stream.rs:845-894 | on a sound file a query gives the selected rows in stored order up to the limit |
| PartitionStore.LogIsContiguous | src/event_stream.rs:529-559 | the rows of tiled files, in version order, are exactly versions 1 to the head |
| PartitionStore.RebuildIsFull | src/event_stream.rs:212-242 | rebuilding the catalog from any files gives one row for each, all sealed at their heads but the last |
| StoreSteps.NextFollows | src/event_stream.rs:561-582 | the next file's name prints its start and ordinal, and it follows the active name if and only if the clock has not fallen back a window |
| StoreSteps.NextIsFresh | src/event_stream.rs:561-582 | the name chosen by a rotation is new and follows all existing names if and only if the clock has not fallen back a window |
| StoreSteps.InitializeKeeps | src/event_stream.rs:175-210 | opening keeps files and log; with files present it always succeeds and leaves the whole catalog and the last file active |
| StoreSteps.OpeningRefuses | src/event_stream.rs:175-190 | opening fails for a name, changing nothing, if and only if one in the catalog does not parse or one of a file that a rebuild needs |
| StoreSteps.FirstFile | src/event_stream.rs:283-310 | an empty store opens with one empty file, of the window of the reading and without an ordinal |
| StoreSteps.AppendKeeps | src/event_stream.rs:336-418 | an append keeps the invariant and adds its batch at the end of the log, or fails with the mismatch on an unmet expectation, with the database's error on a fault, and changes nothing |
| StoreSteps.CrashKeeps | src/event_stream.rs:529-559 | a crash at any point of an initialisation or a rotation keeps the invariant |
| StoreSteps.StepRefinesLog | src/event_stream.rs:529-559 | every step, whatever it is, keeps the invariant and either keeps the log or appends one committed batch |
| StoreRuns.RunIsAppendOnlyLog | src/event_stream.rs:336-418 | at every point of every run the files hold exactly the events committed so far, in commit order, numbered 1, 2, 3, ... with distinct ids |
| StoreRuns.LogsOnlyGrow | src/event_stream.rs:336-418 | no committed event is ever lost, changed or renumbered: earlier logs are prefixes of later ones |
| StoreRuns.AtMostOneWinner | src/event_stream.rs:584-608 | in a whole run at most one non-empty append under NoStream, and at most one for each exact version, succeeds |
| StoreRuns.CommitNeedsHead | src/event_stream.rs:360-379 | a commit happens only at a head its expectation accepts, and moves it |
| StoreRuns.StartComesFirst | src/event_stream.rs:727-733 | the event that starts a workflow run precedes every other event of the run |
| StoreReads.RangesAfterExactly | src/catalog.rs:142-159 | the catalog query of a read returns exactly the rows without a last version or with one behind the cursor, each once, by first version and name |
| StoreReads.SealedFilesFrozen | src/event_stream.rs:529-559 | a file that is no longer the last one never changes again |
| StoreReads.LastFileStood | src/event_stream.rs:529-559 | what the last file of one instant holds later, it held while it was still the last one |
| StoreReads.CatalogCoversLog | src/catalog.rs:142-159 | at every point of a rotation the catalog lists files that hold the whole log, and only the last listed can lack a last version |
| StoreReads.PassedOverFile | src/catalog.rs:142-159 | a file whose last version is not behind the cursor holds nothing the read wants |
| StoreReads.SkippedFilesHoldNothing | src/catalog.rs:142-159 | leaving out files without wanted rows does not change what is selected |
| StoreReads.ReadIsLinearizable | src/event_stream.rs:420-447 | rows seen at different instants select exactly what the log held at one single instant between snapshot and last query |
| StoreReads.ReadExactly | src/event_stream.rs:420-482 | a read of a log is within its limit and in version order, holds only events behind the cursor and of the workflow asked for, and all of them up to its last one or the log's end |
| EventReads.Load | src/event_stream.rs:420-447 | the read loop, with its early stop, returns the first events behind the cursor of the log at one instant of the read, or an error exactly for a limit of 0 or above 10000 |
| EventReads.LoadAfterVersion | src/event_stream.rs:420-447 | a bounded read returns, in order, only events behind the cursor and every one the log held at one instant of the read, up to its last one or the log's end |
| EventReads.LoadWorkflowAfterVersion | src/event_stream.rs:449-482 | a bounded workflow read returns, in order, only events with that anchor behind the cursor and every one the log held at one instant, up to its last one or the log's end, despite the early stop per file |
| Paging.SelectBehind | src/event_stream.rs:845-894 | selecting behind the k-th selected event gives the selected events after it |
| Paging.PagesCompose | src/event_stream.rs:420-447 | a page of a, then a page of b from its last version, are together the page of a + b |
| Paging.PageMovesCursor | src/event_stream.rs:420-447 | a page that is not empty moves the cursor forward, at most to the head |
| Paging.DrainIsAll | src/event_stream.rs:420-447 | repeated bounded reads end and give everything behind the cursor once and in order |
| Paging.DrainOfRun | src/event_stream.rs:420-447 | at every point of every run, draining from the start gives exactly the committed events |
| Paging.WorkflowReadFilters | src/event_stream.rs:449-482 | a workflow read is a plain read of all later events from which those with another anchor are taken out |
| StreamReads.OneMorePage | src/event_stream.rs:420-447 | what was read of an earlier log and a page of a later log from its last version are together read of the later log |
| StreamReads.ReadsJoin | src/event_stream.rs:420-447 | successive bounded reads along a run, whatever is appended, rotated or reopened meanwhile, join to the first selected events of the log at one instant of the last read, all of them if that read returned fewer than its limit |
| StreamReads.ReadsFromStart | src/event_stream.rs:420-447 | from the start, they join to a prefix of the events committed by then, and to all of them if the last page is not full |
| StreamReads.ReadsAreLoads | examples/partition_worker_pool.rs:192-214 | successive reads of the store are loads of a growing log, one instant each, as a worker's drain takes them |
| CatalogReads.CollectedIsTaken | src/event_stream.rs:420-447 | over any files sorted within themselves, the read loop with its early stop collects the first selected rows in file order |
| CatalogReads.PageSorts | src/event_stream.rs:420-447 | whatever the files and the catalog are, a page comes in version order and within its limit |
| CatalogReads.PagesServeExactly | src/event_stream.rs:420-447 | whatever the files' names and order, every page of every size, plain or workflow, is as the log says if and only if the catalog lists every file with rows to its last row and in log order |
| Recovery.RebuildRestores | src/event_stream.rs:212-242 | in every reachable or crashed state the rebuilt ranges are contiguous, one per file, exactly the last unsealed and of greatest head, and with no rotation under way equal the catalog |
| Recovery.ReopeningServesTheLog | src/event_stream.rs:175-210 | reopening after any crash or damage makes the last file active under the whole catalog, files unchanged |
| Recovery.CatalogTiles | src/catalog.rs:131-140 | the rows of a store in use tile the versions from 1, sealed rows end at their files' heads, and only the last can be unsealed |
| Rotations.RotateIsItsSteps | src/event_stream.rs:529-559 | sealing, creating, publishing and switching, one after another, are the whole rotation |
| Rotations.RotationExactly | src/event_stream.rs:529-559 | at any reading and in any state: which file and rows a rotation touches, the heads it sets, and that it changes nothing else |
| Rotations.RotateKeeps | src/event_stream.rs:529-559 | a rotation keeps the invariant and the log, and makes a new empty file active |
| Rotations.RotationKeepsInvExactly | src/event_stream.rs:529-582 | a rotation keeps the state machine's invariant, by which names ascend with versions, if and only if its clock reading is not in a window before the active one |
| Rotations.OrdinalsCountUp | src/rotation.rs:213-219 | any number of rotations in one window counts the ordinal up by one each to 999999 and no further, and a refused one changes nothing |
| Rotations.RefusedAtTheEnd | src/event_stream.rs:569-575 | with the ordinals of a window used up, a rotation reports that and leaves catalog, files and active file alone |
| Rotations.NewWindowRestarts | src/event_stream.rs:580-581 | a later window starts again at its unsuffixed name, whatever the ordinal was |
| Rotations.FileArithmetic | src/event_stream.rs:715-729 | in every reachable file the head is the first version less one plus the rows, and version less sequence is the same for all rows |
| Rotations.ConstraintsNeverFire | src/migration.rs:165-195 | in every reachable state a batch with new ids meets no UNIQUE constraint and the guarded head update takes effect |
| StaleClock.TwoHoursAreReached | src/event_stream.rs:529-559 | a concrete run from an empty store through one rotation, every step of it enabled |
| StaleClock.ReadSkipsAnEvent | src/event_stream.rs:353-359 | after that run, a rotation at a reading one window back makes the first page start at the second event, and reading on never gives the first |
| AnyClock.RotationServesExactly | src/event_stream.rs:529-559 | in any store laid out as a log, names and times playing no part, all reads stay right after a rotation if and only if the file it takes up is new, or empty, or has the active head |
| AnyClock.StoreRotationServesExactly | src/event_stream.rs:529-582 | in every open state the store reaches, all pages stay right after a rotation at any reading if and only if its file is new, or empty, or has the active head; a reading not before the active window always keeps them right |
| AnyClock.AppendKeepsLaid | src/event_stream.rs:336-418 | an append at any clock keeps such a store laid out, with its batch at the end of the log |
| AnyClock.AnyClockServes | src/event_stream.rs:336-559 | through any run of appends and rotations at any readings, as long as no rotation takes up a file with rows, every page at every point is as the log says |
| AnyClock.FallingBackCosts | src/event_stream.rs:529-582 | after a rotation into a new file of an earlier window reads are right, also after an append there, but the next rotation in the former window makes them lose events |
| TrustedCatalogs.OpensLastExactly | src/event_stream.rs:184-200 | opening makes the last file active if and only if the catalog has not exactly one unsealed row or has the last file's row unsealed |
| TrustedCatalogs.OpeningServesExactly | src/event_stream.rs:175-210 | after opening, all reads are right and the active file has the log's head if and only if the catalog was rebuilt, or shows the log and has its one unsealed row at a file with that head |
| TrustedCatalogs.AppendServesExactly | src/event_stream.rs:360-418 | an append at the log's end keeps all reads right if and only if the catalog shows the longer log as well |
| TrustedCatalogs.TrustedCatalogLosesAnEvent | src/event_stream.rs:184-187 | a concrete closed store whose catalog has lost one row opens without an error, never reads the second event, and issues its version again |
| CatalogTable.CatalogDb.CreateEventFileRange | src/catalog.rs:58-81 | inserts or overwrites the row of that name and no other |
| CatalogTable.CatalogDb.SealEventFileRange | src/catalog.rs:83-91 | seals the named row at the given version; a missing name changes nothing |
| CatalogTable.CatalogDb.ReplaceEventFileRanges | src/catalog.rs:93-129 | replaces all rows by exactly the given ones, or on a repeated name or a fault at any statement rolls back to the old ones |
| CatalogTable.CatalogDb.GetAllEventFileRanges | src/catalog.rs:131-140 | returns every row by first version and name |
| CatalogTable.CatalogDb.GetEventFileRangesAfterVersion | src/catalog.rs:142-159 | returns exactly the rows that may hold later events, in that order |
| EventStreams.InsertEvents | src/event_stream.rs:684-786 | the insert loop stores and returns the whole batch, with the next versions, the given ids, the time, the data and the workflow anchor in each event, or fails with the error of the statement that failed |
| EventStreams.DiscoverSummaries | src/event_stream.rs:244-281 | the directory scan summarises exactly the entries that start with events_ and end with .db, and fails if and only if one of their names does not parse |
| EventStreams.SealAllButLast | src/event_stream.rs:222-238 | the summaries in any order become the ranges in order, all sealed but the last |
| EventStreams.RebuiltExactly | src/event_stream.rs:212-242 | the rebuilt ranges of any files: one each, by first version and name, from the least version stored, sealed at the head unless last |
| EventStreams.EventStream.RebuildEventFileRanges | src/event_stream.rs:212-242 | the catalog becomes that of the files alone, or stays as it was on an error |
| EventStreams.EventStream.InitializeActive | src/event_stream.rs:175-210 | opening ends as the functions of the state machine say, keeps the log, and with files present serves the last one |
| EventStreams.EventStream.RotatePartition | src/event_stream.rs:529-559 | at any clock reading the in-place rotation ends in exactly the modelled state with its error, and on an error changes nothing |
| EventStreams.EventStream.RotateUntilCurrentWindow | src/event_stream.rs:517-527 | at any clock reading the loop ends after at most one rotation, with the active window that of the reading or with the rotation's error |
| EventStreams.EventStream.MaybeRotate | src/event_stream.rs:495-515 | at any clock readings: while the time it looks at is in the active window and the file is smaller than the maximum nothing happens, otherwise the file is rotated, under the guard to a new name |
| EventStreams.RotationDecision | src/rotation.rs:225-260 | a rotation is due exactly outside the window of the active start or from the maximum size on |
| EventStreams.EventStream.CommitBatch | src/event_stream.rs:360-418 | the transaction under the lock has exactly the modelled outcome, with a conflict reported as such |
| EventStreams.WholeAppendKeeps | src/event_stream.rs:336-418 | under a clock that does not fall back, the whole append adds exactly the returned events to the log, reports their versions, and on an error leaves the log as it was; a conflict is reported as such, and a database error only comes of a fault |
| EventStreams.AppendDecides | src/event_stream.rs:336-359 | an append inside the active window on a small file changes no name and no catalog row; outside it even an empty append rotates, and a refused rotation ends it |
| EventStreams.EventStream.Append | src/event_stream.rs:336-418 | at any clock readings the method ends in exactly the state and result of that whole append |
| EventStreams.EventStream.CurrentVersion | src/event_stream.rs:484-493 | the head of the active file is the length of the log |
| WorkerPool.LoadIsSlice | examples/partition_worker_pool.rs:199 | a load returns the next 100 events, or all that are left, and nothing exactly at the log's end |
| WorkerPool.TasksKept | examples/partition_worker_pool.rs:117-160 | every step keeps one task for each active partition, none for others, and pending among active |
| WorkerPool.ProgressKept | examples/partition_worker_pool.rs:192-214 | every step keeps what is projected a prefix of the log, and the offset behind it |
| WorkerPool.NoneLostKept | examples/partition_worker_pool.rs:117-160 | every step keeps each received signal served: behind the offset, noted, or with a task that will look again |
| WorkerPool.SentGrows | examples/partition_worker_pool.rs:119-135 | signals are neither lost nor made up nor reordered |
| WorkerPool.RunKeepsInvariant | examples/partition_worker_pool.rs:108-163 | all of this holds at every point of every interleaving |
| WorkerPool.FreshStart | examples/partition_worker_pool.rs:108-116 | a supervisor can start over any logs with no offset stored and nothing projected |
| WorkerPool.NoLostWakeUp | examples/partition_worker_pool.rs:108-163 | when the supervisor has returned well, for every signal ever sent the stored offset and the projected events cover the log as it was then |
| WorkerPool.ProjectedOnceInOrder | examples/partition_worker_pool.rs:192-214 | at every point, failed tasks or not, one task at most works on a partition, its events are projected once and in order, and the offset never runs ahead |
| WorkerPool.NeverStuck | examples/partition_worker_pool.rs:117-162 | unless it only waits for senders, the pool can always take a step |
| PoolTermination.OwnStepFalls | examples/partition_worker_pool.rs:108-215 | every step of a task or of the supervisor, a failure too, leaves strictly less to do |
| PoolTermination.OutsideStepAdds | examples/partition_worker_pool.rs:34-49 | what appends and signals add is exactly five for each event and seven for each signal |
| PoolTermination.WorkIsBounded | examples/partition_worker_pool.rs:108-215 | in every interleaving the pool's own steps and what is left are paid for by what was unprojected at the start and what came from outside |
| PoolTermination.EndsWell | examples/partition_worker_pool.rs:108-163 | with the senders gone and no failed task, a run in which the pool can do nothing more has returned well, with every signal's events behind the offset |
| PoolTermination.Drains | examples/partition_worker_pool.rs:108-163 | once the senders are gone, every run without failures goes on to that end by the pool's own steps, within the measure |
| PoolWorkers.Supervisor.OnSignal | examples/partition_worker_pool.rs:119-134 | the handler changes the two sets and the join set exactly as the modelled receive |
| PoolWorkers.Supervisor.OnJoined | examples/partition_worker_pool.rs:136-159 | the handler does exactly the modelled join, and stops on a failure |
| PoolWorkers.Supervisor.RunSupervisor | examples/partition_worker_pool.rs:108-163 | along any run the supervisor's own state follows the machine, and its result is the run's status |
| PoolWorkers.DrainPartition | examples/partition_worker_pool.rs:183-215 | a drain projects exactly the events from the stored offset, or from the first one when none is stored, to the log's end at its last load, and stores that offset, however the log grew meanwhile |
| PoolWorkers.DrainAgrees | examples/partition_worker_pool.rs:183-215 | a task run from its start to its end in any interleaving projects and stores exactly what the drain does |
| StoreCache.CacheKeyInjective | src/partitions.rs:163-164 | different namespace and partition pairs never share a cache entry |
| StoreCache.RoomIsDetermined | src/partitions.rs:239-251 | with distinct access times the entries evicted are determined |
| StoreCache.PartitionCache.EvictIdle | src/partitions.rs:232-237 | keeps exactly the entries whose time since the last access is at most the time to live, as they are |
| StoreCache.PartitionCache.EvictToCapacity | src/partitions.rs:239-251 | ends below the bound, evicting no more than needed and nothing accessed later than what it keeps |
| StoreCache.PartitionCache.WithMaxOpenStores | src/partitions.rs:67-79 | refuses 0; otherwise evicts the oldest to below the new bound |
| StoreCache.PartitionCache.WithIdleStoreTtl | src/partitions.rs:81-93 | refuses 0; otherwise drops what is idle under the new time to live |
| StoreCache.PartitionCache.FindCached | src/partitions.rs:163-173 | a hit is exactly an entry not idle too long, gives the stream last stored for the pair, and becomes the newest |
| StoreCache.PartitionCache.StoreOpened | src/partitions.rs:178-188 | makes room for one and stores the stream; the size never exceeds the bound |
| StoreCache.PartitionCache.OpenCached | src/partitions.rs:163-189 | whatever other callers do between its two locked parts, returns the live entry without opening, or what opening gave, cached in place of theirs and only on success |
| DatabasePools.CountsWithout | src/pool.rs:284-304 | a counted connection's counter is above zero, and uncounting it keeps every counter equal to its connections |
| DatabasePools.EvictOldDatabases | src/pool.rs:193-230 | evicts nothing up to the maximum, and beyond it exactly the wanted number of the instances whose counters read zero when visited, or all of these, the least recently used first |
| DatabasePools.SweptEvictsOldest | src/pool.rs:213-229 | whatever a sweep that stopped early would have read further on, it has evicted the oldest of those that read as idle |
| DatabasePools.EvictionIsDetermined | src/pool.rs:193-230 | with distinct access times the instances evicted are determined |
| DatabasePools.RoomIsMade | src/pool.rs:193-230 | after an eviction the cache is within its maximum with the new path, or every other path left was read as busy at its visit |
| DatabasePools.DatabasePool.FindDatabase | src/pool.rs:107-117 | a cached path gives its instance and makes it the most recently used |
| DatabasePools.DatabasePool.BeginAdding | src/pool.rs:130-214 | takes the cache and, beyond the maximum, all access times, to evict one more than the excess |
| DatabasePools.DatabasePool.VisitOldest | src/pool.rs:217-229 | one visit reads the counter of the oldest instance left as it is at that moment, and removes it from the cache exactly at zero |
| DatabasePools.DatabasePool.FinishAdding | src/pool.rs:130-143 | caches the new instance after a sweep that went through; the cache then holds at most one more than its maximum unless every other path was read as busy |
| DatabasePools.DatabasePool.BeginConnection | src/pool.rs:150-176 | counts the connection, reusing the cached one if there is one; a failing connect leaves no count |
| DatabasePools.DatabasePool.FinishConnection | src/pool.rs:178-190 | hands the connection over, or uncounts a new one that cannot be configured |
| DatabasePools.DatabasePool.ReturnConnection | src/pool.rs:285-292 | a dropped connection is cached on its instance if that is not locked just then |
| DatabasePools.DatabasePool.UncountConnection | src/pool.rs:294-303 | uncounts a dropped connection; the guard against a zero counter never steps in |
| Notifications.RowRoundTrip | src/notifications_store.rs:90-125 | an event written as a row is read back as itself |
| Notifications.LookUpExactly | src/notifications_store.rs:158-176 | for any clock, a lookup gives the last recorded event exactly when its time to live lasts and no clean-up since has found it expired |
| Notifications.CleanupIsInvisible | src/notifications_store.rs:254-267 | with a clock that never falls back, clean-ups change no lookup |
| Notifications.CleanupIsVisibleWhenClockFallsBack | src/notifications_store.rs:254-267 | with one that does, a clean-up can take away an event still alive |
| Notifications.NotificationsStore.RecordEvent | src/notifications_store.rs:85-140 | a record replaces the request's row and no other |
| Notifications.NotificationsStore.Get | src/notifications_store.rs:158-176 | a lookup answers from the whole history of operations as above |
| Notifications.NotificationsStore.CleanupExpired | src/notifications_store.rs:254-267 | deletes exactly the rows expired before now and counts them |

## Left out

- 64-bit overflow of versions, sequences and times: integers are unbounded.
- Non-ASCII digits, which the pattern's `\d` also matches: names are ASCII.
- Payload size, workflow metadata and label checks before an append: single-branch validation.
- Contents of payloads, trace and span ids, JSON and UUID text: opaque values.
- The database engine, its journal, busy timeouts and pragmas: atomic tables and transactions.
- Two event stream objects on one partition store: the code does not keep the log then.
- An event file that exists without its schema or head row: creating a file is one step.
- Carrying on in the same process after an error in the middle of a rotation: it is followed by a reopening.
- A different window at a reopening: names of other label classes would then mix.
- A store without files whose catalog has exactly one unsealed row: opening it would open a file that is not there.
- EventStreams.WholeAppend: releases and takes the lock between its parts without another caller coming between; the state machine has those interleavings.
- WorkerPool.ProjectedOnceInOrder: speaks of one supervisor; a new one started from stored offsets projects again what a failed batch had projected.
- WorkerPool.NoLostWakeUp: senders never wait for room in the channel, whose bound of 128 is not modelled.
- WorkerPool.LoadIsSlice: a load sees the log at one instant, which is what EventReads.LoadAfterVersion proves of the read.
- DatabasePools.DatabasePool.BeginAdding: building the database before it is left out, and which path is a file.
- PoolTermination.WorkIsBounded: counts steps, not time; nothing is said about when the scheduler takes them.
- Filesystem calls, directory listing and UTF-8 of paths: a listing is a parameter.
- `src/broadcast.rs`, `src/runtime.rs`, `src/actor.rs`, `src/application_schema.rs`, the command line tool and the migration runner: wiring, constants and user interface.
