/**
  The migration runner (migrate/runner.go): `Up`, `Down` and `DownN` against
  a database. Outside a dry run each takes the cross-process lock first and
  releases it when it returns, whatever happened in between.
 */
module Runner {
  import opened Wrappers
  import opened Ordering
  import opened Loader
  import opened State
  import opened Lock
  import opened Plan

  /**
    What the database answers during one run: the lock replies, whether the
    ledger table can be ensured, and how each version's transaction ends when
    it is applied or reverted.
   */
  datatype Env = Env(locks: Replies, ensureOk: bool, apply: int -> TxReply, revert: int -> TxReply)

  /** The run gets past the lock: a dry run takes none; otherwise the driver is supported and the attempt granted. */
  predicate Proceeds(driver: string, dryRun: bool, locks: Replies, lockRow: bool) {
    dryRun || (LockerKind(driver).Some? && AcquireOutcome(LockerKind(driver).value, locks, lockRow).None?)
  }

  /** The error of a run that does not get past the lock. */
  function LockFailure(driver: string, locks: Replies, lockRow: bool): RunError
    requires !Proceeds(driver, false, locks, lockRow)
  {
    match LockerKind(driver)
    case None => LockerUnavailable(UnsupportedDriver(driver))
    case Some(kind) => LockNotAcquired(AcquireOutcome(kind, locks, lockRow).value)
  }

  /**
    The lock calls a run makes: none in a dry run or for an unsupported
    driver; otherwise one attempt, and a release exactly when it was granted.
   */
  ghost predicate LockBracket(before: seq<LockCall>, after: seq<LockCall>, driver: string, dryRun: bool,
                              locks: Replies, lockRow: bool)
  {
    if dryRun || LockerKind(driver).None? then after == before
    else
      var kind := LockerKind(driver).value;
      var granted := AcquireOutcome(kind, locks, lockRow).None?;
      after == before + [Acquire(granted)] +
               (if granted then [Release(ReleaseOutcome(kind, locks, true).None?)] else [])
  }

  /** Whether `migration_lock` exists after a run: only a SQLite lock attempt can create it. */
  function LockTableAfterRun(driver: string, dryRun: bool, locks: Replies, hadTable: bool): (table: bool)
    ensures hadTable ==> table
    ensures dryRun ==> table == hadTable
  {
    if dryRun || LockerKind(driver).None? then hadTable
    else LockTableAfter(LockerKind(driver).value, locks, hadTable)
  }

  /**
    Whether the SQLite lock row is committed after a run: only the deferred
    release of a lock the run was granted changes it.
   */
  function LockRowAfterRun(driver: string, dryRun: bool, locks: Replies, row: bool): (after: bool)
    ensures dryRun || !Proceeds(driver, dryRun, locks, row) ==> after == row
  {
    if dryRun || !Proceeds(driver, dryRun, locks, row) then row
    else LockRowAfterRelease(LockerKind(driver).value, locks, true, row)
  }

  /**
    A SQLite run that was granted the lock and released it cleanly leaves no
    row behind, so the next locker whose statements succeed is granted the
    lock, even when the run itself failed in between.
   */
  lemma RunReleasesLock(locks: Replies, row: bool, next: Replies)
    requires Proceeds("sqlite3", false, locks, row)
    requires ReleaseOutcome(SQLite, locks, true).None?
    requires next.lite.createOk && next.lite.beginOk && next.lite.insertOk && next.lite.rowsOk
    ensures !LockRowAfterRun("sqlite3", false, locks, row)
    ensures Proceeds("sqlite3", false, next, LockRowAfterRun("sqlite3", false, locks, row))
  {
    KindOfDriverName(SQLite);
    ReleaseThenRelock(locks, row, next.lite);
  }

  /**
    The lock prologue shared by `Up`, `Down` and `DownN` (runner.go:19-32):
    outside a dry run, create the locker for the driver and take the lock.
   */
  method TakeLock(db: Database, dryRun: bool, locks: Replies) returns (locker: Option<Locker>, err: Option<RunError>)
    requires db.Valid()
    modifies db`hasLockTable, db`lockCalls
    ensures db.Valid()
    ensures err.None? <==> Proceeds(db.driver, dryRun, locks, db.lockRow)
    ensures err.Some? ==> !dryRun && err.value == LockFailure(db.driver, locks, db.lockRow)
    ensures dryRun ==> locker.None? && db.lockCalls == old(db.lockCalls) && db.hasLockTable == old(db.hasLockTable)
    ensures !dryRun && LockerKind(db.driver).None? ==> db.lockCalls == old(db.lockCalls)
    ensures !dryRun && LockerKind(db.driver).Some? ==> db.lockCalls == old(db.lockCalls) + [Acquire(err.None?)]
    ensures db.hasLockTable == LockTableAfterRun(db.driver, dryRun, locks, old(db.hasLockTable))
    ensures !dryRun && err.None? ==>
              && locker.Some? && fresh(locker.value) && locker.value.db == db
              && Some(locker.value.kind) == LockerKind(db.driver)
              && locker.value.Valid() && locker.value.locked && locker.value.session
  {
    locker := None;
    if dryRun {
      return locker, None;
    }
    var made := NewLocker(db);
    if made.Failure? {
      return locker, Some(LockerUnavailable(made.error));
    }
    var lockErr := made.value.Lock(locks);
    if lockErr.Some? {
      return locker, Some(LockNotAcquired(lockErr.value));
    }
    locker := Some(made.value);
    err := None;
  }

  /** The deferred `Unlock` (runner.go:31): the lock is released and what `Unlock` reports is dropped. */
  method DropLock(locker: Locker, locks: Replies)
    requires locker.Valid() && locker.locked && locker.session
    modifies locker, locker.db`lockRow, locker.db`lockCalls
    ensures locker.db.Valid()
    ensures locker.db.lockCalls == old(locker.db.lockCalls) + [Release(ReleaseOutcome(locker.kind, locks, true).None?)]
    ensures locker.db.lockRow == LockRowAfterRelease(locker.kind, locks, true, old(locker.db.lockRow))
  {
    var released := locker.Unlock(locks);
  }

  // ---------------------------------------------------------------------------
  // Up (runner.go:12-104)

  /** The part of `Up` after the lock (runner.go:34-103). */
  method ApplyPending(db: Database, dir: Directory, dryRun: bool, env: Env) returns (err: Option<RunError>)
    requires db.Valid()
    modifies db`hasLedger, db`ledger
    ensures db.Valid()
    ensures db.hasLedger == (old(db.hasLedger) || env.ensureOk)
    ensures Outcome(err, db.ledger) == UpSpec(Loaded(dir), env.ensureOk, old(db.ledger), dryRun, env.apply)
  {
    var ensured := db.Ensure(env.ensureOk);
    if ensured.Some? {
      return Some(LedgerSetupFailed);
    }
    var loaded := Load(dir);
    err := ApplyLoaded(db, loaded, dryRun, env.apply);
  }

  /** `Up` once the ledger table exists and the directory has been read (runner.go:39-103). */
  method ApplyLoaded(db: Database, loaded: Result<seq<Migration>, LoadError>, dryRun: bool, apply: int -> TxReply)
    returns (err: Option<RunError>)
    requires db.Valid() && db.hasLedger
    modifies db`ledger
    ensures db.Valid()
    ensures Outcome(err, db.ledger) == UpSpec(loaded, true, old(db.ledger), dryRun, apply)
  {
    if loaded.Failure? {
      return Some(LoadFailed);
    }
    var migrations := loaded.value;
    // The ledger exists now, so reading it succeeds.
    var done := MarkApplied(db.Applied().value);
    var pendingCount;
    err, pendingCount := ApplyEach(db, migrations, done, dryRun, apply);
  }

  /** The set of applied versions as the map `done` (runner.go:46-49). */
  method MarkApplied(versions: seq<int>) returns (done: map<int, bool>)
    ensures done.Keys == Elems(versions)
    ensures forall v :: v in done ==> done[v]
  {
    done := map[];
    for j := 0 to |versions|
      invariant done.Keys == Elems(versions[..j])
      invariant forall v :: v in done ==> done[v]
    {
      assert versions[..j + 1] == versions[..j] + [versions[j]];
      done := done[versions[j] := true];
    }
    assert versions[..|versions|] == versions;
  }

  /**
    The loop over the loaded migrations (runner.go:51-92): skip the applied
    ones; in a dry run only count the others; otherwise run each one's
    transaction and stop at the first failure. `pendingCount` is the number
    the dry run reports.
   */
  method ApplyEach(db: Database, migrations: seq<Migration>, done: map<int, bool>, dryRun: bool,
                   apply: int -> TxReply)
    returns (err: Option<RunError>, pendingCount: nat)
    requires db.hasLedger && db.Valid()
    requires forall v :: v in done ==> done[v]
    modifies db`ledger
    ensures db.Valid()
    ensures var p := Pending(migrations, done.Keys);
            dryRun ==> err.None? && pendingCount == |p| && db.ledger == old(db.ledger)
    ensures var p := Pending(migrations, done.Keys);
            var k := CommittedCount(p, apply);
            !dryRun ==> && db.ledger == old(db.ledger) + VersionSet(p[..k])
                        && (err.None? <==> k == |p|)
                        && (k < |p| ==> err == Some(ApplyFailed(p[k].version, apply(p[k].version).stage)))
  {
    ghost var applied := done.Keys;
    ghost var seen: seq<Migration> := [];
    pendingCount := 0;
    var i := 0;
    while i < |migrations|
      invariant 0 <= i <= |migrations|
      invariant db.hasLedger
      invariant seen == Pending(migrations[..i], applied)
      invariant pendingCount == |seen|
      invariant dryRun ==> db.ledger == old(db.ledger)
      invariant !dryRun ==> db.ledger == old(db.ledger) + VersionSet(seen)
      invariant !dryRun ==> CommittedCount(seen, apply) == |seen|
    {
      var m := migrations[i];
      assert migrations[..i + 1] == migrations[..i] + [m];
      // done[v] is false for a version that was never recorded.
      if !(m.version in done && done[m.version]) {
        pendingCount := pendingCount + 1;
        var failed := ApplyOne(db, m, dryRun, apply, old(db.ledger), seen);
        if failed.Some? {
          StopsAt(migrations, i, applied, apply);
          return Some(ApplyFailed(m.version, failed.value)), pendingCount;
        }
        seen := seen + [m];
      }
      i := i + 1;
    }
    assert migrations[..i] == migrations;
    err := None;
  }

  /**
    One pending migration (runner.go:56-91): a dry run only reports it;
    otherwise its transaction runs and, when it commits, the committed
    prefix `seen` grows by it.
   */
  method ApplyOne(db: Database, m: Migration, dryRun: bool, apply: int -> TxReply,
                  ghost base: set<int>, ghost seen: seq<Migration>)
    returns (failed: Option<TxStage>)
    requires db.hasLedger
    requires !dryRun ==> db.ledger == base + VersionSet(seen) && CommittedCount(seen, apply) == |seen|
    modifies db`ledger
    ensures failed.Some? ==> !dryRun && apply(m.version).FailsAt? && failed.value == apply(m.version).stage
    ensures failed.Some? || dryRun ==> db.ledger == old(db.ledger)
    ensures failed.None? && !dryRun ==>
              db.ledger == base + VersionSet(seen + [m]) && CommittedCount(seen + [m], apply) == |seen| + 1
  {
    if dryRun {
      return None;
    }
    failed := db.ApplyTx(m.version, apply(m.version));
    if failed.None? {
      VersionSetSnoc(seen, m);
      CommittedSnoc(seen, m, apply);
    }
  }

  /** The first pending migration whose transaction fails is where `Up` stops. */
  lemma StopsAt(ms: seq<Migration>, i: nat, applied: set<int>, apply: int -> TxReply)
    requires i < |ms| && ms[i].version !in applied && apply(ms[i].version).FailsAt?
    requires CommittedCount(Pending(ms[..i], applied), apply) == |Pending(ms[..i], applied)|
    ensures var p := Pending(ms, applied);
            var c := |Pending(ms[..i], applied)|;
            CommittedCount(p, apply) == c && c < |p| && p[c] == ms[i] && p[..c] == Pending(ms[..i], applied)
  {
    PendingAt(ms, i, applied);
    var p := Pending(ms, applied);
    var c := |Pending(ms[..i], applied)|;
    forall j | 0 <= j < c ensures apply(p[j].version).Commits? {
      assert p[j] == p[..c][j];
    }
  }

  /** One more committed transaction extends the committed prefix by one. */
  lemma {:induction false} CommittedSnoc(p: seq<Migration>, m: Migration, apply: int -> TxReply)
    requires CommittedCount(p, apply) == |p| && apply(m.version).Commits?
    ensures CommittedCount(p + [m], apply) == |p| + 1
    decreases |p|
  {
    if p != [] {
      assert (p + [m])[1..] == p[1..] + [m];
      CommittedSnoc(p[1..], m, apply);
    }
  }

  /** The migration at `i`, when pending, comes right after the pending ones before it. */
  lemma PendingAt(ms: seq<Migration>, i: nat, applied: set<int>)
    requires i < |ms| && ms[i].version !in applied
    ensures var p := Pending(ms, applied);
            var c := |Pending(ms[..i], applied)|;
            c < |p| && p[..c] == Pending(ms[..i], applied) && p[c] == ms[i]
  {
    assert ms == ms[..i] + ms[i..];
    PendingConcat(ms[..i], ms[i..], applied);
    assert ms[i..] == [ms[i]] + ms[i + 1..];
    PendingConcat([ms[i]], ms[i + 1..], applied);
    assert [ms[i]] == [] + [ms[i]];
    PendingSnoc([], ms[i], applied);
  }

  lemma VersionSetSnoc(p: seq<Migration>, m: Migration)
    ensures VersionSet(p + [m]) == VersionSet(p) + {m.version}
  {
    var q := p + [m];
    forall v | v in VersionSet(q) ensures v in VersionSet(p) + {m.version} {
      var j :| 0 <= j < |q| && q[j].version == v;
      if j < |p| { assert p[j] == q[j]; }
    }
    forall v | v in VersionSet(p) ensures v in VersionSet(q) {
      var j :| 0 <= j < |p| && p[j].version == v;
      assert q[j] == p[j];
    }
    assert q[|p|] == m;
  }

  /**
    `Up`: apply every pending migration, oldest first, each in its own
    transaction, stopping at the first that fails.
   */
  method Up(db: Database, dir: Directory, dryRun: bool, env: Env) returns (err: Option<RunError>)
    requires db.Valid()
    modifies db
    ensures db.Valid()
    ensures LockBracket(old(db.lockCalls), db.lockCalls, db.driver, dryRun, env.locks, old(db.lockRow))
    ensures db.hasLockTable == LockTableAfterRun(db.driver, dryRun, env.locks, old(db.hasLockTable))
    ensures db.lockRow == LockRowAfterRun(db.driver, dryRun, env.locks, old(db.lockRow))
    ensures db.hasLedger == (old(db.hasLedger) || (env.ensureOk && Proceeds(db.driver, dryRun, env.locks, old(db.lockRow))))
    ensures Outcome(err, db.ledger) ==
            if Proceeds(db.driver, dryRun, env.locks, old(db.lockRow))
            then UpSpec(Loaded(dir), env.ensureOk, old(db.ledger), dryRun, env.apply)
            else Outcome(Some(LockFailure(db.driver, env.locks, old(db.lockRow))), old(db.ledger))
  {
    var locker, lockErr := TakeLock(db, dryRun, env.locks);
    if lockErr.Some? {
      return lockErr;
    }
    err := ApplyPending(db, dir, dryRun, env);
    if locker.Some? {
      DropLock(locker.value, env.locks);
    }
  }

  // ---------------------------------------------------------------------------
  // Down (runner.go:106-184)

  /** The part of `Down` after the lock (runner.go:128-183). */
  method RollbackLast(db: Database, dir: Directory, dryRun: bool, env: Env) returns (err: Option<RunError>)
    requires db.Valid()
    modifies db`ledger
    ensures db.Valid()
    ensures Outcome(err, db.ledger) == DownSpec(Loaded(dir), old(db.hasLedger), old(db.ledger), dryRun, env.revert)
  {
    var loaded := Load(dir);
    err := RollbackLoaded(db, loaded, dryRun, env.revert);
  }

  /** `Down` once the directory has been read (runner.go:128-183). */
  method RollbackLoaded(db: Database, loaded: Result<seq<Migration>, LoadError>, dryRun: bool, revert: int -> TxReply)
    returns (err: Option<RunError>)
    requires db.Valid()
    modifies db`ledger
    ensures db.Valid()
    ensures Outcome(err, db.ledger) == DownSpec(loaded, old(db.hasLedger), old(db.ledger), dryRun, revert)
  {
    if loaded.Failure? {
      return Some(NothingToRollback);
    }
    var migrations := loaded.value;
    var newest := db.Last();
    if newest.Failure? {
      return Some(NothingToRollback);
    }
    err := RollbackVersion(db, migrations, newest.value, dryRun, revert);
  }

  /** Find the migration of the newest version and revert it (runner.go:137-183). */
  method RollbackVersion(db: Database, migrations: seq<Migration>, v: int, dryRun: bool, revert: int -> TxReply)
    returns (err: Option<RunError>)
    requires db.hasLedger
    modifies db`ledger
    ensures Outcome(err, db.ledger) == RollbackSpec(migrations, v, old(db.ledger), dryRun, revert)
  {
    var target: Option<Migration> := None;
    var i := 0;
    while i < |migrations|
      invariant 0 <= i <= |migrations|
      invariant forall j :: 0 <= j < i ==> migrations[j].version != v
      invariant target.None?
    {
      if migrations[i].version == v {
        target := Some(migrations[i]);
        break;
      }
      i := i + 1;
    }
    FindSkips(migrations, v, i);

    if target.None? || target.value.downSQL == "" {
      return Some(NoDownMigration);
    }
    if dryRun {
      return None;
    }
    var failed := db.RevertTx(target.value.version, revert(target.value.version));
    if failed.Some? {
      return Some(RollbackFailed(v, failed.value));
    }
    err := None;
  }

  /** `Down`: revert the newest applied migration, in its own transaction. */
  method Down(db: Database, dir: Directory, dryRun: bool, env: Env) returns (err: Option<RunError>)
    requires db.Valid()
    modifies db
    ensures db.Valid()
    ensures LockBracket(old(db.lockCalls), db.lockCalls, db.driver, dryRun, env.locks, old(db.lockRow))
    ensures db.hasLockTable == LockTableAfterRun(db.driver, dryRun, env.locks, old(db.hasLockTable))
    ensures db.lockRow == LockRowAfterRun(db.driver, dryRun, env.locks, old(db.lockRow))
    ensures db.hasLedger == old(db.hasLedger)
    ensures Outcome(err, db.ledger) ==
            if Proceeds(db.driver, dryRun, env.locks, old(db.lockRow))
            then DownSpec(Loaded(dir), old(db.hasLedger), old(db.ledger), dryRun, env.revert)
            else Outcome(Some(LockFailure(db.driver, env.locks, old(db.lockRow))), old(db.ledger))
  {
    var locker, lockErr := TakeLock(db, dryRun, env.locks);
    if lockErr.Some? {
      return lockErr;
    }
    err := RollbackLast(db, dir, dryRun, env);
    if locker.Some? {
      DropLock(locker.value, env.locks);
    }
  }

  // ---------------------------------------------------------------------------
  // DownN (runner.go:186-293)

  /** The map from version to migration (runner.go:233-236). */
  method IndexByVersion(migrations: seq<Migration>) returns (migrationMap: map<int, Migration>)
    ensures migrationMap == ByVersion(migrations)
  {
    migrationMap := map[];
    for i := 0 to |migrations|
      invariant migrationMap == ByVersion(migrations[..i])
    {
      assert migrations[..i + 1][..i] == migrations[..i];
      migrationMap := migrationMap[migrations[i].version := migrations[i]];
    }
    assert migrations[..|migrations|] == migrations;
  }

  /**
    The loop over the versions to revert, newest first (runner.go:239-285):
    each must have a file with a down script; outside a dry run each is
    reverted in its own transaction; the first failure stops the loop.
   */
  method RevertEach(db: Database, toRevert: seq<int>, migrationMap: map<int, Migration>, dryRun: bool,
                    revert: int -> TxReply)
    returns (err: Option<RunError>)
    requires db.hasLedger
    requires forall v :: v in migrationMap ==> migrationMap[v].version == v
    modifies db`ledger
    ensures var order := Reversed(toRevert);
            var k := RevertedCount(order, migrationMap, revert, dryRun);
            && (err.None? <==> k == |toRevert|)
            && (k < |toRevert| ==> err == Some(StopError(order[k], migrationMap, revert)))
            && db.ledger == (if dryRun then old(db.ledger) else old(db.ledger) - Elems(order[..k]))
  {
    ghost var order := Reversed(toRevert);
    ghost var d := 0;
    var i := |toRevert| - 1;
    while i >= 0
      invariant -1 <= i < |toRevert| && d == |toRevert| - 1 - i
      invariant db.hasLedger
      invariant RevertedCount(order[..d], migrationMap, revert, dryRun) == d
      invariant db.ledger == (if dryRun then old(db.ledger) else old(db.ledger) - Elems(order[..d]))
    {
      var version := toRevert[i];
      assert order[d] == version;
      var failure := RevertOne(db, version, migrationMap, dryRun, revert);
      if failure.Some? {
        RevertedStop(order, d, migrationMap, revert, dryRun);
        return failure;
      }
      RevertedGrow(order, d, migrationMap, revert, dryRun);
      RemoveNext(old(db.ledger), order, d);
      i, d := i - 1, d + 1;
    }
    assert order[..d] == order;
    err := None;
  }

  /** Removing one more version of the order from the ledger. */
  lemma RemoveNext(ledger: set<int>, order: seq<int>, d: nat)
    requires d < |order|
    ensures ledger - Elems(order[..d + 1]) == ledger - Elems(order[..d]) - {order[d]}
  {
    assert order[..d + 1] == order[..d] + [order[d]];
    ElemsConcat(order[..d], [order[d]]);
  }

  /**
    One version of the loop (runner.go:242-284): its file must exist and have
    a down script; outside a dry run its transaction removes it from the ledger.
   */
  method RevertOne(db: Database, version: int, migrationMap: map<int, Migration>, dryRun: bool,
                   revert: int -> TxReply)
    returns (failure: Option<RunError>)
    requires db.hasLedger
    requires forall v :: v in migrationMap ==> migrationMap[v].version == v
    modifies db`ledger
    ensures failure.None? <==> Revertible(version, migrationMap) && (dryRun || revert(version).Commits?)
    ensures failure.Some? ==> failure.value == StopError(version, migrationMap, revert) && db.ledger == old(db.ledger)
    ensures failure.None? ==> db.ledger == if dryRun then old(db.ledger) else old(db.ledger) - {version}
  {
    if version !in migrationMap {
      return Some(MigrationFileMissing(version));
    }
    var target := migrationMap[version];
    if target.downSQL == "" {
      return Some(MissingDownScript(version));
    }
    if !dryRun {
      var failed := db.RevertTx(target.version, revert(target.version));
      if failed.Some? {
        return Some(RevertFailed(target.version, failed.value));
      }
    }
    failure := None;
  }

  lemma {:induction false} RevertedGrow(order: seq<int>, d: nat, mm: map<int, Migration>, revert: int -> TxReply, dryRun: bool)
    requires d < |order| && RevertedCount(order[..d], mm, revert, dryRun) == d
    requires Revertible(order[d], mm) && (dryRun || revert(order[d]).Commits?)
    ensures RevertedCount(order[..d + 1], mm, revert, dryRun) == d + 1
    decreases d
  {
    if d > 0 {
      assert order[..d + 1][1..] == order[1..][..d];
      assert order[..d][1..] == order[1..][..d - 1];
      RevertedGrow(order[1..], d - 1, mm, revert, dryRun);
    }
  }

  lemma RevertedStop(order: seq<int>, d: nat, mm: map<int, Migration>, revert: int -> TxReply, dryRun: bool)
    requires d < |order| && RevertedCount(order[..d], mm, revert, dryRun) == d
    requires !(Revertible(order[d], mm) && (dryRun || revert(order[d]).Commits?))
    ensures RevertedCount(order, mm, revert, dryRun) == d
  {
    forall j | 0 <= j < d ensures Revertible(order[j], mm) && (dryRun || revert(order[j]).Commits?) {
      assert order[..d][j] == order[j];
    }
  }

  /** The part of `DownN` after the lock (runner.go:213-292). */
  method RevertSteps(db: Database, dir: Directory, steps: int, dryRun: bool, env: Env) returns (err: Option<RunError>)
    requires db.Valid() && steps >= 1
    modifies db`ledger
    ensures db.Valid()
    ensures Outcome(err, db.ledger) ==
            DownNSpec(Loaded(dir), old(db.hasLedger), old(db.ledger), steps, dryRun, env.revert)
  {
    var loaded := Load(dir);
    err := RevertLoaded(db, loaded, steps, dryRun, env.revert);
  }

  /** `DownN` once the directory has been read (runner.go:221-292). */
  method RevertLoaded(db: Database, loaded: Result<seq<Migration>, LoadError>, steps: int, dryRun: bool,
                      revert: int -> TxReply)
    returns (err: Option<RunError>)
    requires db.Valid() && steps >= 1
    modifies db`ledger
    ensures db.Valid()
    ensures Outcome(err, db.ledger) == DownNSpec(loaded, old(db.hasLedger), old(db.ledger), steps, dryRun, revert)
  {
    if loaded.Failure? {
      return Some(LoadFailed);
    }
    var migrations := loaded.value;
    var appliedVersions := db.Applied();
    if appliedVersions.Failure? {
      return Some(LedgerUnreadable);
    }
    var a := appliedVersions.value;
    AscendingUnique(a, SortedSeq(db.ledger));
    ElemsEmpty(a);
    if |a| == 0 {
      return Some(NothingToRevert);
    }
    if steps > |a| {
      return Some(TooManySteps(|a|, steps));
    }
    err := RevertNewest(db, migrations, a, steps, dryRun, revert);
  }

  /** Revert the newest `steps` of the applied versions `a`, the ledger in ascending order (runner.go:233-285). */
  method RevertNewest(db: Database, migrations: seq<Migration>, a: seq<int>, steps: int, dryRun: bool,
                      revert: int -> TxReply)
    returns (err: Option<RunError>)
    requires db.hasLedger && 1 <= steps <= |a|
    modifies db`ledger
    ensures Outcome(err, db.ledger) == RevertStepsSpec(migrations, a, old(db.ledger), steps, dryRun, revert)
  {
    var migrationMap := IndexByVersion(migrations);
    var toRevert := a[|a| - steps..];
    err := RevertEach(db, toRevert, migrationMap, dryRun, revert);
  }

  /** `DownN`: revert the newest `steps` applied migrations, newest first, each in its own transaction. */
  method DownN(db: Database, dir: Directory, steps: int, dryRun: bool, env: Env) returns (err: Option<RunError>)
    requires db.Valid()
    modifies db
    ensures db.Valid()
    ensures db.hasLedger == old(db.hasLedger)
    ensures steps < 1 ==> err == Some(InvalidSteps(steps)) && db.ledger == old(db.ledger)
                          && db.lockCalls == old(db.lockCalls) && db.hasLockTable == old(db.hasLockTable)
                          && db.lockRow == old(db.lockRow)
    ensures steps >= 1 ==> LockBracket(old(db.lockCalls), db.lockCalls, db.driver, dryRun, env.locks, old(db.lockRow))
    ensures steps >= 1 ==> db.hasLockTable == LockTableAfterRun(db.driver, dryRun, env.locks, old(db.hasLockTable))
    ensures steps >= 1 ==> db.lockRow == LockRowAfterRun(db.driver, dryRun, env.locks, old(db.lockRow))
    ensures Outcome(err, db.ledger) ==
            if steps < 1 || Proceeds(db.driver, dryRun, env.locks, old(db.lockRow))
            then DownNSpec(Loaded(dir), old(db.hasLedger), old(db.ledger), steps, dryRun, env.revert)
            else Outcome(Some(LockFailure(db.driver, env.locks, old(db.lockRow))), old(db.ledger))
  {
    if steps < 1 {
      return Some(InvalidSteps(steps));
    }
    var locker, lockErr := TakeLock(db, dryRun, env.locks);
    if lockErr.Some? {
      return lockErr;
    }
    err := RevertSteps(db, dir, steps, dryRun, env);
    if locker.Some? {
      DropLock(locker.value, env.locks);
    }
  }
}
