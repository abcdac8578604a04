# migrator-db migration engine, modelled in Dafny

This project models the migration engine of migrator-db (the Go package `migrate/`) and proves properties of the model. The package has five parts:

- **The loader** (`Load`) turns a directory of `<version>_<name>.up.sql` / `.down.sql` files into one migration per version, sorted by version.
- **The ledger** (`ensure`, `applied`, `last`) manages the `schema_migrations` table of applied versions.
- **The runner** provides three operations:
  - `Up` applies the pending migrations oldest first, one transaction each.
  - `Down` reverts the newest applied migration.
  - `DownN` reverts the newest `steps` applied migrations, newest first.

  Outside a dry run, each operation takes a cross-process lock first and releases it when it returns.
- **The lockers** hold that lock: a PostgreSQL advisory lock, a MySQL named lock, or a SQLite lock row inside an open transaction.
- **The creator** (`NewMigration`) writes a new pair of migration files.

Modules, one per concern:

- `Wrappers`: `Option` and `Result`.
- `Ordering`: ascending sequences, and `SortedSeq`, the ascending listing of a set.
- `Text`: the parts of Go's `strings` and `strconv` the loader and the creator use:
  - `Split` and `Join` on one character;
  - `TrimSuffix` and `Contains`;
  - `Atoi`, read as the loader reads it, with the error ignored. It gives 0 on a syntax error and saturates at the bound of the sign on overflow. The digits are read left to right as `strconv.ParseUint` reads them, so digits that pass 2^64-1 saturate even when a non-digit follows;
  - `%d` printing.
- `Loader` (loader.go):
  - a directory is a value: unreadable, or a listing of `(name, readable, content)` entries in file-name order;
  - `Load` is an imperative method: a loop building the version map, a loop collecting its entries, and an in-place insertion sort on an array;
  - `Load` is proved equal to the function `Loaded`, whose properties are lemmas.
- `State` (state.go): the class `Database`:
  - the ledger as a set of versions, and whether its table exists;
  - the SQLite lock row, and whether its table exists;
  - a ghost log of every lock attempt by an unlocked locker and every release by a locked one, including attempts whose connection failed and releases with no session left;
  - the per-migration transactions, whose outcomes are replies.
- `Lock` (lock.go):
  - `NewLocker` and a class `Locker` with the `locked` flag and the open session (a connection, or the lock transaction);
  - per-variant `Lock` and `Unlock`, with the database's answers as reply values.
- `Plan`: what the runner decides, as functions:
  - the pending migrations, how many transactions commit, the revert order and how far it gets;
  - `UpSpec`, `DownSpec` and `DownNSpec`, each giving the reported error and the resulting ledger;
  - lemmas about those functions.
- `Runner` (runner.go):
  - `Up`, `Down` and `DownN` as methods on a `Database`, with the same loops and early returns as the Go code;
  - each method is proved to produce exactly what the corresponding `Plan` function says.
- `Creator` (creator.go): `NewMigration` as a function of whether each filesystem step succeeds and of the version; round-trip lemmas through the loader.

Two behaviours of the code that its interface does not suggest, both modelled as written:

- The command-line help says a dry run simulates without applying changes (cmd/main.go:31). Yet a dry-run `Up` still creates the ledger table (runner.go:34). `ApplyPending` and `Up` state this in their `hasLedger` postconditions.
- A loaded version missing from the ledger is pending wherever it sorts, even below the newest applied version (runner.go:52-55). `Up` applies it.

## Model

| member | source | states |
|---|---|---|
| Loader.Load | migrate/loader.go:12-64 | An unreadable directory is an error. Otherwise the result is the directory's migrations, one per version, in ascending order: the value `Loaded(dir)`, whose properties are the lemmas below |
| Loader.ScanEntries | migrate/loader.go:18-52 | The loop over the entries builds the version map that `Scan` defines, entry by entry |
| Loader.CollectEntries | migrate/loader.go:54-57 | Every entry of the map is collected exactly once and nothing else, in whatever order the map yields |
| Loader.SortByVersion | migrate/loader.go:59-61 | The array ends up ordered by version and is a permutation of what it held |
| Loader.SortedIsArranged | migrate/loader.go:54-61 | Collecting in any order and then sorting gives the one ascending arrangement of the map, so the result does not depend on map iteration order |
| Loader.ArrangeFacts | migrate/loader.go:54-61 | The arrangement is strictly ascending by version. Each version of the map appears exactly once, with its map entry |
| Loader.AscendingIsArranged | migrate/loader.go:59-61 | A strictly ascending listing of exactly the map's entries is unique: it is the arrangement |
| Loader.ScanKeys | migrate/loader.go:20-33 | The versions loaded are exactly the versions of the readable `.sql` files. A `.sql` file with neither marker still creates an entry |
| Loader.ScanIgnores | migrate/loader.go:22-33 | A file not ending in `.sql`, or one that cannot be read, has no effect wherever it appears in the listing |
| Loader.VersionIsLeadingToken | migrate/loader.go:26-27 | The version is `Atoi` of the text before the first `_`, or of the whole name when there is no `_` |
| Loader.NameIsTextAfterFirstUnderscore | migrate/loader.go:36-42 | The name is the text after the first `_`, with later `_` kept, minus a trailing `.up.sql` and then a trailing `.down.sql`. It is "" when there is no `_` |
| Loader.ScanNameFromFirst | migrate/loader.go:34-45 | A version's name comes from the first readable `.sql` file with that version |
| Loader.ScanScriptFromLast | migrate/loader.go:47-51 | Each script is the content, verbatim, of the last readable file supplying it (`.up.` wins over `.down.`) |
| Loader.ScanScriptAbsent | migrate/loader.go:47-51 | A half that no file supplies stays "" |
| Loader.AbsorbFrame | migrate/loader.go:34-51 | One file adds at most its own version, changes no other version, and never renames an existing entry |
| Loader.EmptyCatalog | migrate/loader.go:54-63 | An empty directory loads as an empty list |
| Text.JoinSplit | migrate/loader.go:26-41 | Joining the `_`-pieces of a name with `_` gives the name back |
| Text.SplitAtFirst | migrate/loader.go:26-41 | The first piece is the text before the first separator, and the others joined are the text after it |
| Text.TrimSuffix | migrate/loader.go:41-42 | A present suffix is removed exactly; otherwise the text is unchanged |
| Text.Atoi | migrate/loader.go:26-27 | The version read from a file name always lies in the signed 64-bit range. `AtoiDigits`, `AtoiOverflowSaturates` and `AtoiSyntaxError` characterise which value |
| Text.ParseDigits | migrate/loader.go:26-27 | `strconv.ParseUint`'s digit loop: a value it returns never falls below the digits read so far and never exceeds 2^64-1 |
| Text.ParseDigitsValue | migrate/loader.go:26-27 | On a string of digits, the loop gives their decimal value when it fits in 64 unsigned bits, and a range error otherwise |
| Text.AtoiDigits | migrate/loader.go:26-27 | An optional sign followed by digits reads as their signed value, saturated at the 64-bit bounds |
| Text.AtoiOverflowSaturates | migrate/loader.go:26-27 | Digits whose value passes 2^64-1 give the bound of the sign, whatever follows them (so `99999999999999999999x` reads as the maximum) |
| Text.AtoiSyntaxError | migrate/loader.go:26-27 | A non-digit reached before any overflow makes the version 0 |
| Text.AtoiItoa | migrate/creator.go:23-24 | Printing a 64-bit version with `%d` and parsing it back with `Atoi` gives the version |
| State.Database.Ensure | migrate/state.go:5-11 | On success the ledger table exists and its rows are unchanged, so calling it again changes nothing. On failure nothing changes |
| State.Database.Applied | migrate/state.go:13-17 | Gives every recorded version, strictly ascending (empty when none), and fails without the table |
| State.Database.Last | migrate/state.go:19-23 | Gives the greatest recorded version. It fails without the table, and on an empty table |
| State.Database.LastIsNewestApplied | migrate/state.go:13-23 | `last` is the final element of `applied` |
| State.Database.ApplyTx | migrate/runner.go:70-89 | A committed `Up` transaction adds exactly its version. A failed one (begin, script, insert or commit) leaves the ledger unchanged and reports the stage |
| State.Database.RevertTx | migrate/runner.go:161-180 | A committed revert removes exactly its version. A failed one leaves the ledger unchanged and reports the stage |
| Lock.LockerKind | migrate/lock.go:22-35 | A locker is chosen only for "postgres", "mysql" and "sqlite3". Any other driver has none |
| Lock.KindOfDriverName | migrate/lock.go:22-35 | Each supported driver name selects its own variant |
| Lock.NewLocker | migrate/lock.go:22-35 | A supported driver gets a fresh, unlocked locker of its kind. Any other driver gets an error naming it |
| Lock.Locker.constructor | migrate/lock.go:27-31 | A new locker is unlocked and holds no session |
| Lock.Locker.LockPostgres | migrate/lock.go:46-74 | A held locker refuses and changes nothing. Otherwise `locked` (and the connection) becomes true exactly when a connection is obtained, the query succeeds and it reports the lock acquired |
| Lock.Locker.LockMySQL | migrate/lock.go:102-130 | Like PostgreSQL, but granted only when `GET_LOCK` returns a non-null 1 |
| Lock.Locker.LockSQLite | migrate/lock.go:156-220 | A held locker refuses. Otherwise the lock table exists once its creation succeeds. The lock is granted when the insert adds the row, or when the row exists and the update returns without error before the timeout or cancellation |
| Lock.Locker.Lock | migrate/lock.go:13-19 | The attempt of the locker's variant. An attempt from an unlocked locker is logged with its result; a refused one is not. After an attempt, the SQLite lock table exists once its creation succeeded (`LockTableAfter`) |
| Lock.Locker.UnlockConnection | migrate/lock.go:76-91 | An unlocked locker: no-op, no error. A locked one always closes its connection, and becomes unlocked exactly when the release query succeeds; otherwise it errs and stays locked |
| Lock.Locker.UnlockSQLite | migrate/lock.go:222-240 | An unlocked locker: no-op. A locked one ends the transaction. A successful commit commits the row, and a successful delete then removes it; only then is the locker unlocked |
| Lock.Locker.Unlock | migrate/lock.go:13-19 | The release of the locker's variant, logged when the locker was locked. A locker whose session is gone cannot release again. The SQLite lock row ends as `LockRowAfterRelease` says |
| Lock.LockTableAfter | migrate/lock.go:160-169 | The lock table, once present, stays. SQLite creates it when the create statement succeeds. The other drivers never touch it |
| Lock.LockRowAfterRelease | migrate/lock.go:222-240 | A clean SQLite release leaves no row. A failed delete after a good commit leaves the row committed. A failed commit, or another driver, leaves the row as it was |
| Lock.ReleaseThenRelock | migrate/lock_test.go:263-297 | After a clean SQLite release, a new locker whose statements succeed is granted the lock |
| Lock.MySQLNeedsOne | migrate/lock.go:118-128 | A MySQL attempt succeeds exactly when `GET_LOCK` returns a non-null 1 |
| Lock.StaleRowDoesNotBlock | migrate/lock.go:182-216 | With no row committed, a SQLite attempt whose statements succeed is granted; with a row, exactly when the update returns in time |
| Plan.PendingMembers | migrate/runner.go:46-55 | A migration is pending exactly when it was loaded and its version is not recorded |
| Plan.PendingAscending | migrate/runner.go:52-58 | The pending migrations are attempted in ascending version order |
| Plan.CommittedCount | migrate/runner.go:70-89 | The number of pending migrations whose transaction commits before the first one that fails, which is the next one |
| Plan.ResumeAfterFailure | migrate/runner.go:52-89 | Once the first `k` pending migrations are recorded, exactly the rest are pending |
| Plan.UpIdempotent | migrate/runner.go:52-55 | After all pending migrations are recorded, nothing is pending |
| Plan.UpCommitsAll | migrate/runner.go:51-103 | When every pending transaction commits, `Up` reports no error and records exactly the pending versions |
| Plan.UpOnlyAddsPending | migrate/runner.go:52-89 | `Up` never removes a version, and every version it adds belongs to a loaded migration that was pending |
| Plan.UpTwice | migrate/runner.go:52-55 | After a successful `Up`, a second `Up` over the same directory changes nothing and succeeds |
| Plan.UpResumes | migrate/runner.go:70-89 | After `Up` stops at a failing migration, the next `Up` finds exactly that one and the later ones pending |
| Plan.DryRunsChangeNothing | migrate/runner.go:59-66 | A dry-run `Up`, `Down` or `DownN` leaves the ledger unchanged, whatever it reports |
| Plan.Find | migrate/runner.go:137-143 | `Down`'s search finds a migration of the version exactly when one was loaded |
| Plan.DownRemovesNewest | migrate/runner.go:128-183 | A `Down` that succeeds outside a dry run had a non-empty ledger and removes exactly its greatest version. A failed or dry-run `Down` leaves the ledger unchanged |
| Plan.ByVersion | migrate/runner.go:233-236 | The map holds exactly the loaded versions, each mapped to a loaded migration of that version |
| Plan.ByVersionIsFind | migrate/runner.go:233-236 | With distinct versions, `DownN`'s map and `Down`'s search agree |
| Plan.RevertOrder | migrate/runner.go:238-242 | The versions `DownN` visits are the newest `steps` applied versions, newest first |
| Plan.RevertOrderElems | migrate/runner.go:238-242 | The revert order holds exactly the last `steps` applied versions |
| Plan.RevertedCount | migrate/runner.go:241-285 | How many versions `DownN` gets through: each has a file with a down script and, outside a dry run, commits. The next one does not |
| Plan.StopErrorNamesVersion | migrate/runner.go:245-282 | The error `DownN` stops with names the version it stopped at |
| Plan.DownNKeepsOldest | migrate/runner.go:239-285 | However far `DownN` gets, the ledger keeps exactly the oldest `|applied| - k` versions |
| Plan.DownNKeepsPrefix | migrate/runner.go:239-285 | After `DownN` the ledger is always a prefix of the ascending applied list. Reverts already committed are kept when a later one fails |
| Plan.DownNGuards | migrate/runner.go:193-230 | A `DownN` that succeeds had `1 <= steps <= |applied|`, a loaded directory and a non-empty readable ledger |
| Plan.DownNSucceeded | migrate/runner.go:239-292 | A `DownN` that succeeds outside a dry run reverted all `steps` newest versions. The ledger is the old ledger minus exactly those |
| Plan.DownIsDownNOne | migrate/runner.go:238-242 | The one version `DownN(1)` visits is the greatest applied version |
| Plan.DownNOfOne | migrate/runner.go:193-285 | `DownN(1)` on a non-empty ledger reverts the greatest version alone, or stops on it with the ledger unchanged |
| Plan.DownIsDownNOfOne | migrate/runner.go:128-183 | `Down` and `DownN(1)` leave the same ledger and agree on success |
| Plan.RevertedInCatalog | migrate/runner.go:243-247 | Every version `DownN` reverted had a loaded migration |
| Plan.PendingAfterRevert | migrate/runner.go:52-55 | When nothing was pending, removing loaded versions from the ledger makes exactly those pending |
| Plan.ReappliedAreReverted | migrate/runner.go:52-58 | The same, with the pending ones in ascending order, and recording them restores the ledger |
| Plan.RevertedArePending | migrate/runner.go:239-285 | After a full `DownN`, the reverted versions are exactly the pending ones, oldest first |
| Plan.RevertThenReapply | migrate/runner.go:239-285 | A `DownN` that succeeds and then an `Up` whose transactions commit: the `Up` re-applies exactly the reverted migrations, oldest first, and restores the ledger |
| Runner.TakeLock | migrate/runner.go:19-30 | No locker in a dry run. Otherwise the run proceeds exactly when the driver is supported and the attempt is granted; one attempt is logged and the error is the locker's. The lock table afterwards is `LockTableAfterRun`'s |
| Runner.DropLock | migrate/runner.go:31-31 | The deferred `Unlock` runs and is logged. Its error is dropped, and the lock row ends as `LockRowAfterRelease` says for a locked locker with its session |
| Runner.Up | migrate/runner.go:12-104 | A failed lock returns its error before anything else, leaving the ledger unchanged. Otherwise the outcome is `UpSpec`. The lock calls are one attempt plus a release exactly when granted; a dry run makes none. The lock table and lock row afterwards are `LockTableAfterRun`'s and `LockRowAfterRun`'s |
| Runner.LockTableAfterRun | migrate/runner.go:19-30 | A run never drops the lock table. A dry run, or an unsupported driver, leaves it as it was |
| Runner.LockRowAfterRun | migrate/runner.go:19-31 | A dry run, or a run not granted the lock, leaves the lock row as it was. Only the deferred release changes it |
| Runner.RunReleasesLock | migrate/lock_test.go:174-201 | A SQLite run that was granted the lock and released it cleanly leaves no row, even when the run itself failed. The next locker whose statements succeed is then granted the lock |
| Runner.ApplyPending | migrate/runner.go:34-103 | The ledger table is ensured first (a dry run too), and the outcome is `UpSpec` |
| Runner.ApplyLoaded | migrate/runner.go:38-103 | With the table present and the directory read, error and ledger are `UpSpec`'s |
| Runner.MarkApplied | migrate/runner.go:46-49 | `done` marks exactly the applied versions, all true |
| Runner.ApplyEach | migrate/runner.go:51-92 | A dry run counts the pending migrations and changes nothing. Otherwise the ledger gains exactly the committed prefix. The error names the first failing version and stage, and is absent when all commit |
| Runner.ApplyOne | migrate/runner.go:56-91 | One pending migration: a dry run skips it. Otherwise its transaction either adds its version and extends the committed prefix, or fails with the ledger unchanged |
| Runner.StopsAt | migrate/runner.go:70-89 | The migration that fails in the loop is the first pending one that fails, after the committed prefix |
| Runner.Down | migrate/runner.go:106-184 | A failed lock returns first with the ledger unchanged. Otherwise the outcome is `DownSpec`. Lock calls, lock table and lock row as for `Up`, and the ledger table is never created |
| Runner.RollbackLast | migrate/runner.go:128-183 | After the lock, error and ledger are `DownSpec`'s for the loaded directory |
| Runner.RollbackLoaded | migrate/runner.go:128-135 | Error and ledger are `DownSpec`'s: a load failure, a missing table or an empty ledger is reported with the ledger unchanged. Otherwise the greatest version is rolled back |
| Runner.RollbackVersion | migrate/runner.go:137-183 | No loaded migration, or an empty down script: error, ledger unchanged. A dry run reports only. Otherwise the version's transaction removes it or fails, leaving the ledger unchanged |
| Runner.DownN | migrate/runner.go:187-293 | `steps < 1` is rejected before any lock call, with the lock table, lock row and ledger unchanged. Otherwise a failed lock returns first, the outcome is `DownNSpec`, and the lock calls, lock table and lock row are as for `Up` |
| Runner.RevertSteps | migrate/runner.go:213-292 | After the lock, error and ledger are `DownNSpec`'s for the loaded directory |
| Runner.RevertLoaded | migrate/runner.go:213-231 | Error and ledger are `DownNSpec`'s: a load failure, an unreadable ledger, an empty ledger and `steps > |applied|` are each reported before any transaction, with the ledger unchanged |
| Runner.RevertNewest | migrate/runner.go:232-285 | Reverts the newest `steps` of the ascending applied list as `RevertStepsSpec` says |
| Runner.IndexByVersion | migrate/runner.go:233-236 | The loop builds `ByVersion`: later entries of a version replace earlier ones |
| Runner.RevertEach | migrate/runner.go:239-285 | Walks the versions newest first. The ledger loses exactly the versions got through. The error names the first version with no file, no down script or a failed transaction |
| Runner.RevertOne | migrate/runner.go:242-284 | One version: it succeeds exactly when it is revertible and (outside a dry run) commits. Success removes exactly it; failure leaves the ledger unchanged |
| Creator.NewMigration | migrate/creator.go:11-38 | The directory is created before the name is checked. An empty name writes nothing. The up file is written before the down file, and a failure stops the call. On success the two files are written |
| Creator.FileNamesShareStem | migrate/creator.go:21-24 | The two names are `<version>_<name>` plus `.up.sql` / `.down.sql`, with the name verbatim, and they differ |
| Creator.NameWithoutDotIsLoadable | migrate/creator.go:23-24 | Any non-empty name without `.` or `/` (spaces, `-` and `_` included) is read back unchanged by the loader |
| Creator.UpFileParses | migrate/creator.go:23-26 | The loader reads the up file as the up script of the version, with the name |
| Creator.DownFileParses | migrate/creator.go:24-29 | The loader reads the down file as the down script of the version, with the name |
| Creator.CreatedPairLoads | migrate/creator.go:23-31 | The two created files, listed in either order, load as exactly one migration: the version, the name, `-- UP\n` and `-- DOWN\n` |
| Creator.NewMigrationLoadsBack | migrate/creator.go:11-38 | A successful `NewMigration` into an empty directory leaves a directory that loads as exactly the new migration |
| Creator.FailedDownWriteLeavesUpOnly | migrate/creator.go:26-31 | When the down write fails, the up file stays behind and loads as a migration without a down script |

## Left out

- Output: all printing (`fmt.Print*`, `log.Printf`) and the dry-run report text. `ApplyEach` returns the pending count the dry run prints.
- Error messages: errors are datatype values, not Go's wrapped message strings.
- The filesystem and the clock are inputs, not I/O:
  - the directory listing, whether each file can be read, and its content;
  - whether `MkdirAll` and each `WriteFile` succeed;
  - the version `time.Now().Unix()` would give.

  `filepath.Join` placing a name that holds `/` in a subdirectory is not modelled. Such names are outside `LoadableName`, so the round-trip lemmas do not speak of them. A `WriteFile` that fails is taken to leave no file.
- SQL semantics: script execution, the ledger insert and delete, and commits are replies (`TxReply`) that say at which step a transaction fails.
  - The ledger is a set. A duplicate insert cannot arise in the model, because `Up` only inserts versions absent from the ledger.
  - `db.Rebind` is not modelled.
- Reading the ledger inside `Up` after `ensure` succeeded always succeeds in the model. A database error at that point is not modelled, and neither are errors from `applied` or `last` other than a missing table or an empty ledger.
- Concurrency and time:
  - the 30-second contexts;
  - the goroutine and `select` in the SQLite `Lock`, which become the three-way `WaitOutcome` reply;
  - races between processes.

  The native lock primitives (`pg_try_advisory_lock`, `GET_LOCK`, `RELEASE_LOCK`, `pg_advisory_unlock`, dedicated connections) appear only through their replies.
- `Lock.Locker.UnlockConnection`: the PostgreSQL release ignores the boolean `pg_advisory_unlock` returns, as the code does; only an error from the query counts as a failed release.
- `Text.Atoi`: its own contract states only the 64-bit range. Its value is stated by the lemmas `Text.AtoiDigits`, `Text.AtoiOverflowSaturates`, `Text.AtoiSyntaxError` and `Text.AtoiItoa`. `strconv.Atoi`'s error value is not modelled, since the loader drops it.
- Go's `int` is taken as 64 bits. Versions above the 64-bit range cannot be written by `%d` of a Unix time, and `Atoi` saturates them as Go does.
- The command-line front end (`cmd/main.go`), `migrate.Status` and the test helpers are not part of this model.
