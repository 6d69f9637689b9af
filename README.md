# limigrations, modelled in Dafny

limigrations is a small migration runner for SQLite. Its database keeps a
`migrations` table with one row `(file, status, created_at)` per migration
file. The status is `'down'` or `'up'`. Two entry points drive it:

- `migrate` creates the table if needed and registers every entry that
  `os.listdir` returns for the migrations directory (subdirectories included)
  that is not yet in it, as `'down'`, stamped with the
  current time. It then walks the `'down'` rows ordered by
  `date(created_at) DESC`. For each row it imports the module named by the
  file (the name cut at its first `.py`), calls its `up`, sets the row
  `'up'` and commits. It returns whether any `up` ran.
- `rollback` returns False without a migrations directory. Otherwise it picks
  one `'up'` row of the latest day, calls its module's `down`, sets the row
  `'down'`, commits and returns True. It returns False when no row is `'up'`.

The model has five modules:

- `ModuleNames` (`module_names.dfy`): the file-to-module cut `file.split('.py')[0]`.
- `Clock` (`clock.dfy`): registration stamps and the day that `date()` keeps of them.
- `Registry` (`registry.dfy`): the rows, the reconciliation of the registry with a
  directory listing, the status `UPDATE`, and the two ordered queries.
- `Limigrations` (`limigrations.dfy`): the database file as a class `Runner`.
  - Its fields are whether the table exists, its rows, and a log of the unit calls
    and commits.
  - `Migrate` and `Rollback` are methods. `Migrate` carries the source's two loops,
    in `RegisterNew` and `RunRows`. Their postconditions tie the new state to the pure functions `MigrateEffect` and `RollbackEffect`.
- `MigrationProperties` (`properties.dfy`): what the code promises about those
  effects, including properties that relate several calls.

How the model stands in for the outside world:

- The directory listing and the clock reading are parameters.
- A migration unit is an abstract action named by its module. Which modules
  raise in `up` (`upFails`) or `down` (`downFails`) is a parameter of each call.
- A raised exception is the outcome `Raised(file)`. Querying a missing table is
  the outcome `NoSuchTable`.

Two places where the code and its docstrings disagree are modelled as the code
is written:

- The docstring of `migrate` promises "chronological order"
  (limigrations/limigrations.py:28). The query orders by `date(created_at) DESC`
  (limigrations/limigrations.py:69), which is newest day first.
  `ThreeDaysRunNewestFirst` shows the reverse-chronological order on three days.
- The docstring of `rollback` says the table is created if missing
  (limigrations/limigrations.py:87). The code never creates it, so `rollback` on
  a fresh database fails at its query (`RollbackNeedsTable`).

## Model

| member | source | states |
|---|---|---|
| ModuleNames.ModuleNameIsFirstCut | limigrations/limigrations.py:71 | the module name is the file name up to its first ".py": a prefix of the file name in which no ".py" of the file name starts, followed by ".py" unless it is the whole name |
| ModuleNames.ModuleNameWhole | limigrations/limigrations.py:71 | the cut keeps the whole file name exactly when the name contains no ".py" |
| ModuleNames.ModuleNameIdempotent | limigrations/limigrations.py:118 | a module name contains no ".py", so cutting it again changes nothing |
| ModuleNames.ModuleNameOfSourceFile | limigrations/limigrations.py:71 | round trip: the file `m + ".py" + rest` is imported as module `m` when `m` has no ".py" |
| Clock.DateLeIsChronological | limigrations/limigrations.py:67-69 | the day order used by the queries is calendar order: by year, then month, then day of month |
| Registry.Unregistered | limigrations/limigrations.py:55-58 | the names that pass `mig not in migrations` are exactly the listed names missing from the snapshot; distinct when the listing is; none when every listed name is known |
| Registry.Reconcile | limigrations/limigrations.py:54-62 | existing rows stay first, unchanged and in order; each appended row is 'down', stamped now, and names a listed file that was not registered; afterwards every listed name is registered |
| Registry.ReconcileKeepsFilesDistinct | limigrations/limigrations.py:55-61 | with distinct registered names and a distinct listing, no name is registered twice afterwards |
| Registry.ReconcileIdempotent | limigrations/limigrations.py:55-58 | a second reconciliation against the same listing appends nothing, whatever the clock says |
| Registry.SetStatus | limigrations/limigrations.py:75-76 | the status UPDATE changes the status of exactly the rows naming the file; no row is added or removed and `file` and `created_at` never change |
| Registry.MarkUp | limigrations/limigrations.py:70-78 | after the successive updates, exactly the rows naming one of the files are 'up' and the others are as before |
| Registry.WithStatus | limigrations/limigrations.py:67-68 | the `WHERE status=?` filter keeps every row of that status as often as it occurs, and no other row |
| Registry.InsertByDay | limigrations/limigrations.py:69 | inserting a row into a newest-day-first list keeps it newest day first and adds exactly that row |
| Registry.ByDayDesc | limigrations/limigrations.py:69 | `ORDER BY date(created_at) DESC` yields a permutation of its input that is newest day first |
| Registry.PendingQuery | limigrations/limigrations.py:67-69 | the pending query returns the 'down' rows and nothing else, newest day first |
| Registry.PendingQueryExact | limigrations/limigrations.py:67-69 | the pending query holds each 'down' row exactly as often as the table does, so it repeats no name when the table does not |
| Registry.LatestUp | limigrations/limigrations.py:109-113 | the `LIMIT 1` query finds nothing exactly when no row is 'up'; otherwise it finds an 'up' row whose day is not before any other 'up' row's |
| Limigrations.FirstFailing | limigrations/limigrations.py:70-73 | the position of the first pending row whose `up` raises: every earlier `up` returns, and the row at that position raises unless it is the end |
| Limigrations.PassLogAt | limigrations/limigrations.py:70-78 | in an apply pass, the i-th row's `up` call comes right before the commit of its 'up' status, after everything done for the earlier rows |
| Limigrations.Runner.constructor | limigrations/limigrations.py:11-19 | a new database file has no `migrations` table, no rows, and nothing has run |
| Limigrations.Runner.Migrate | limigrations/limigrations.py:22-80 | `migrate` leaves the table existing, with the rows, log and outcome of `MigrateEffect`: registration, then the apply pass |
| Limigrations.Runner.RegisterNew | limigrations/limigrations.py:53-62 | the registration loop leaves the table equal to `Reconcile` of the old table with the listing |
| Limigrations.Runner.RunPending | limigrations/limigrations.py:65-80 | the apply pass on the current table has the effect of `ApplyEffect` |
| Limigrations.Runner.RunRows | limigrations/limigrations.py:66-80 | the apply loop sets 'up' the files of the rows before the first raising one, logs each `up` before its commit, and returns the raise or whether anything ran |
| Limigrations.Runner.Revert | limigrations/limigrations.py:117-126 | the end of `rollback`: the unit's `down` is logged; if it raises, nothing else changes; otherwise the file's rows are set 'down', the commit is logged, and True is returned |
| Limigrations.Runner.Rollback | limigrations/limigrations.py:83-126 | `rollback` keeps whether the table exists and has the rows, log and outcome of `RollbackEffect` |
| MigrationProperties.FirstFailingAll | limigrations/limigrations.py:70-78 | the pass reaches the end exactly when no pending unit raises |
| MigrationProperties.ApplyRanAll | limigrations/limigrations.py:66-80 | when no pending `up` raises, every pending row is set 'up', the log is the full pass, and the result says whether any row was pending |
| MigrationProperties.ApplyAllUp | limigrations/limigrations.py:66-78 | a pass that raised nothing leaves every row of the table 'up' and keeps everything else |
| MigrationProperties.ApplyPrefixUp | limigrations/limigrations.py:70-78 | the pending rows before the raising one are in the table as 'up'; the others are unchanged |
| MigrationProperties.MigrateRunsPendingNewestDayFirst | limigrations/limigrations.py:66-78 | `migrate` calls `up` for exactly the 'down' rows after registration, newest day first, each call followed by the commit of that row before the next call; all of them when nothing raises |
| MigrationProperties.MigrateRaisedLog | limigrations/limigrations.py:70-78 | when an `up` raises, the log is the pass over the pending rows before it followed by that one call and nothing more, whatever the table and listing |
| MigrationProperties.ApplyOnlyRaises | limigrations/limigrations.py:75-76 | the apply pass keeps every row's file and stamp and can only turn 'down' into 'up' |
| MigrationProperties.MigrateChangesOnlyStatus | limigrations/limigrations.py:54-78 | `migrate` removes no row and changes no `file` or `created_at`; a changed status goes from 'down' to 'up'; each new row names a listed, unregistered file and is stamped now |
| MigrationProperties.MigrateReturnsWhetherRan | limigrations/limigrations.py:66-80 | `migrate` returns True exactly when some row was pending and none of their units raised; a returned flag is true exactly when some `up` ran |
| MigrationProperties.MigrateStopsAtFailure | limigrations/limigrations.py:70-78 | when the k-th `up` raises, the log is the pass over the rows before it followed by that one call and nothing else, so the raising row is never committed; the rows before it are 'up', and it and every later pending row are still 'down' |
| MigrationProperties.ApplyReturnedAgain | limigrations/limigrations.py:54-80 | after a pass that raised nothing over a table that registers the listing, the next registration and pass do nothing |
| MigrationProperties.MigrateAgainRunsNothing | limigrations/limigrations.py:54-80 | after a `migrate` that raised nothing, `migrate` on the same listing registers nothing, runs nothing and returns False |
| MigrationProperties.DownRowsAreLater | limigrations/limigrations.py:70-78 | every row still 'down' after the pass is a pending row from the raising one on |
| MigrationProperties.LaterRowsStayDown | limigrations/limigrations.py:70-78 | every pending row from the raising one on is still in the table as 'down' |
| MigrationProperties.MigrateRetryResumes | limigrations/limigrations.py:54-78 | running `migrate` again re-runs exactly the pending rows from the one that raised on |
| MigrationProperties.MigrateKeepsFilesDistinct | limigrations/limigrations.py:55-61 | with a distinct listing, `migrate` never registers a name twice |
| MigrationProperties.RollbackNothingToRevert | limigrations/limigrations.py:102-116 | without a migrations directory, or with no 'up' row, `rollback` returns False and changes nothing |
| MigrationProperties.RollbackRevertsLatest | limigrations/limigrations.py:109-126 | otherwise `rollback` picks an 'up' row of the latest day and calls its `down`; if that returns, the file is set 'down' and True returned; if it raises, nothing is committed |
| MigrationProperties.RollbackFlipsOneFile | limigrations/limigrations.py:122-124 | a successful `rollback` sets exactly the rows of the reverted file 'down' and leaves every other row as it was |
| MigrationProperties.RollbackKeepsFilesDistinct | limigrations/limigrations.py:107-126 | `rollback` only changes a status, so a table in which no name is registered twice stays so on every exit |
| MigrationProperties.RollbackNeedsTable | limigrations/limigrations.py:107-113 | `rollback` does not create the `migrations` table, so on a database that never ran `migrate` its query fails |
| MigrationProperties.MigrateThenRollbackOne | tests/test_limigrations.py:80-88 | on a fresh database with one migration file, `migrate` runs its `up` and returns True; `rollback` then runs its `down`, leaves it 'down' and returns True |
| MigrationProperties.EmptyDirectoryRegistersNothing | limigrations/limigrations.py:54-80 | an empty migrations directory registers nothing, so `migrate` is the apply pass over the table as it stands: rows already 'down' still run, and with none 'down' it changes nothing and returns False; on a fresh database `rollback` then finds nothing to revert |
| MigrationProperties.ThreeDaysRunNewestFirst | limigrations/limigrations.py:67-69 | three migrations registered on three successive days, still in the directory, run newest first; a `rollback` afterwards calls the newest one's `down` and, if it returns, commits it 'down' and returns True |

## Left out

- The SQLite connection, cursor, SQL text and commit durability (limigrations/limigrations.py:11-19, 50-52). The table is a sequence of rows. Each committed status UPDATE (limigrations/limigrations.py:75-77, 122-124) is a `Committed` event in the log. The commits after the table creation (limigrations/limigrations.py:52) and after the registration (limigrations/limigrations.py:62) are not logged; the registered rows are simply in the table before the apply pass.
- Cursor reuse in the apply loop (limigrations/limigrations.py:67-76). The source iterates the same cursor on which `up` and the `UPDATE` execute. The model walks a snapshot of the pending rows. Re-executing a statement on a cursor that is being iterated replaces its result set, so in practice the loop most likely ends after the first pending row: at most one migration would run per call. The model runs every pending row, as the loop is evidently meant to.
- `os.mkdir`, `os.listdir` and `time.strftime` (limigrations/limigrations.py:46, 57, 61, 104). The listing and the clock reading are parameters.
  - `migrate` without a directory creates an empty one, so it is `Migrate` with an empty listing.
  - `mkdir` failing on an existing `migrations` directory is not modelled.
  - `os.listdir` raising on a missing, explicitly given directory is not modelled. In the source that happens after the table is already created and committed (limigrations/limigrations.py:50-57).
- The text form of `created_at` ('%Y-%m-%d %H:%M:%S') and SQLite's parsing of it. Rows carry the stamp's fields, and `date()` is `DateOf`.
- Limigrations.Runner.RegisterNew: every row registered by one call gets the same stamp `now`. The source reads the clock once per inserted row (limigrations/limigrations.py:61), so rows from one call could straddle midnight.
- Registry.Reconcile: the same simplification; one stamp `now` for every row it appends.
- Limigrations.MigrateEffect: the same simplification; one stamp `now` for the whole registration.
- Registry.PendingQuery: SQLite leaves the order of rows of the same day unspecified. The model fixes one (a stable insertion sort), but its contracts promise only "newest day first" and "every 'down' row once".
- `sys.path.append`, `__import__` and `reload` (limigrations/limigrations.py:64, 71-72, 118-119). A unit is an abstract action. Whether its `up` or `down` raises is given per module name.
  - `rollback` never adds the migrations directory to `sys.path`; only `migrate` does (limigrations/limigrations.py:64). Its `__import__` (limigrations/limigrations.py:118) therefore succeeds only when the module is already importable, for example after a `migrate` in the same process. `downFails` covers the resulting raise.
- Side effects of the imports on the directory. The listing is a parameter independent of the imports, but the real `__import__` at limigrations/limigrations.py:71-72 and 118-119 can write a bytecode cache into the migrations directory (`t.pyc`, or a `__pycache__` directory). A later `os.listdir` returns that entry and `migrate` registers it. For `t.pyc` the cut at limigrations/limigrations.py:71 gives `t` again, so `t`'s `up` runs a second time. `MigrateAgainRunsNothing` and `ReconcileIdempotent` hold for an unchanged listing only.
- The unit bodies, meaning the SQL that migrations run on the database. Only the calls and their outcomes are modelled.
- limigrations/migration.py, migrations/example_migration.py and migrations/test_migration.py.
  - `BaseMigration` is an interface without logic.
  - A class-style unit does not expose the module-level `up` called at limigrations/limigrations.py:73. With such a unit, the call raises; `upFails` covers that case.
- The default `db_file` name (limigrations/limigrations.py:42-43, 100-101). A `Runner` is one database file.
- Concurrency: the source has none.
