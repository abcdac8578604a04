/**
  Cross-process mutual exclusion (migrate/lock.go). `NewLocker` picks a
  locker by driver name; each locker holds a dedicated connection (PostgreSQL
  advisory lock, MySQL named lock) or an open serializable transaction
  (SQLite lock table) while it is locked. What the database answers is given
  as replies; the lockers' own state and the order of their steps are modelled.
 */
module Lock {
  import opened Wrappers
  import opened State

  datatype Kind = Postgres | MySQL | SQLite

  function DriverName(k: Kind): string {
    match k
    case Postgres => "postgres"
    case MySQL => "mysql"
    case SQLite => "sqlite3"
  }

  /** The locker `NewLocker` chooses for a driver name (lock.go:22-35). */
  function LockerKind(driver: string): (k: Option<Kind>)
    ensures k.Some? ==> DriverName(k.value) == driver
    ensures k.None? ==> forall kind: Kind :: DriverName(kind) != driver
  {
    if driver == "postgres" then Some(Postgres)
    else if driver == "mysql" then Some(MySQL)
    else if driver == "sqlite3" then Some(SQLite)
    else None
  }

  /** The three supported drivers are told apart: each gets its own locker. */
  lemma {:induction false} KindOfDriverName(k: Kind)
    ensures LockerKind(DriverName(k)) == Some(k)
  {
    match k
    case Postgres =>
    case MySQL =>
      assert DriverName(k)[0] != "postgres"[0];
    case SQLite =>
      assert DriverName(k)[0] != "postgres"[0];
      assert DriverName(k)[0] != "mysql"[0];
  }

  /** The advisory-lock key ("migrate" in ASCII) and the MySQL lock name. */
  const PgLockKey: int := 0x6D696772617465
  const MySQLLockName: string := "migrator_lock"
  /** Seconds MySQL's GET_LOCK and the SQLite update wait before giving up. */
  const LockWaitSeconds: nat := 10

  datatype LockError =
    | UnsupportedDriver(driver: string)
    | AlreadyLocked
    | ConnectionFailed
    | AcquireQueryFailed
    | HeldElsewhere
    | LockTableFailed
    | BeginFailed
    | InsertFailed
    | RowsAffectedFailed
    | UpdateFailed
    | TimedOut
    | Cancelled
    | ReleaseFailed
    | CleanupFailed

  /** Replies to the PostgreSQL attempt: a connection, `pg_try_advisory_lock`'s row, its value. */
  datatype PgAcquire = PgAcquire(connOk: bool, queryOk: bool, acquired: bool)

  /** Replies to the MySQL attempt: a connection, `GET_LOCK`'s row, its nullable value. */
  datatype MyAcquire = MyAcquire(connOk: bool, queryOk: bool, result: Option<int>)

  /** How the wait for the SQLite update ends: the update returns, 10 seconds pass, or the context ends. */
  datatype WaitOutcome = UpdateReturned(ok: bool) | WaitElapsed | ContextDone

  /** Replies to the SQLite attempt, step by step. */
  datatype LiteAcquire = LiteAcquire(createOk: bool, beginOk: bool, insertOk: bool, rowsOk: bool, wait: WaitOutcome)

  /** Everything the database answers to one locker's attempt and release. */
  datatype Replies = Replies(
    pg: PgAcquire, pgReleaseOk: bool,
    my: MyAcquire, myReleaseOk: bool,
    lite: LiteAcquire, liteCommitOk: bool, liteDeleteOk: bool)

  /** What a PostgreSQL attempt from an unlocked locker reports (lock.go:52-73). */
  function PgOutcome(reply: PgAcquire): Option<LockError> {
    if !reply.connOk then Some(ConnectionFailed)
    else if !reply.queryOk then Some(AcquireQueryFailed)
    else if !reply.acquired then Some(HeldElsewhere)
    else None
  }

  /** What a MySQL attempt from an unlocked locker reports (lock.go:108-129). */
  function MyOutcome(reply: MyAcquire): Option<LockError> {
    if !reply.connOk then Some(ConnectionFailed)
    else if !reply.queryOk then Some(AcquireQueryFailed)
    else if reply.result != Some(1) then Some(HeldElsewhere)
    else None
  }

  /**
    What a SQLite attempt from an unlocked locker reports (lock.go:162-219).
    `INSERT OR IGNORE` affects no row exactly when the lock row is already
    committed; only then does the locker wait for the update.
   */
  function LiteOutcome(reply: LiteAcquire, lockRow: bool): Option<LockError> {
    if !reply.createOk then Some(LockTableFailed)
    else if !reply.beginOk then Some(BeginFailed)
    else if !reply.insertOk then Some(InsertFailed)
    else if !reply.rowsOk then Some(RowsAffectedFailed)
    else if !lockRow then None
    else match reply.wait
      case UpdateReturned(ok) => if ok then None else Some(UpdateFailed)
      case WaitElapsed => Some(TimedOut)
      case ContextDone => Some(Cancelled)
  }

  function AcquireOutcome(kind: Kind, r: Replies, lockRow: bool): Option<LockError> {
    match kind
    case Postgres => PgOutcome(r.pg)
    case MySQL => MyOutcome(r.my)
    case SQLite => LiteOutcome(r.lite, lockRow)
  }

  /** MySQL grants the lock only when GET_LOCK returns exactly 1; NULL and 0 are refusals. */
  lemma MySQLNeedsOne(reply: MyAcquire)
    ensures MyOutcome(reply).None? <==> reply.connOk && reply.queryOk && reply.result == Some(1)
  {
  }

  /**
    A lock row left behind (by a cleanup that failed) does not block SQLite
    for good: once the update returns, the lock is granted.
   */
  lemma StaleRowDoesNotBlock(reply: LiteAcquire)
    requires reply.createOk && reply.beginOk && reply.insertOk && reply.rowsOk
    ensures LiteOutcome(reply, false).None?
    ensures LiteOutcome(reply, true).None? <==> reply.wait == UpdateReturned(true)
  {
  }

  /** What a release by a locked locker reports; a closed session cannot release anything. */
  function ReleaseOutcome(kind: Kind, r: Replies, session: bool): Option<LockError> {
    if !session then Some(ReleaseFailed)
    else match kind
      case Postgres => if r.pgReleaseOk then None else Some(ReleaseFailed)
      case MySQL => if r.myReleaseOk then None else Some(ReleaseFailed)
      case SQLite =>
        if !r.liteCommitOk then Some(ReleaseFailed)
        else if !r.liteDeleteOk then Some(CleanupFailed)
        else None
  }

  /** Whether `migration_lock` exists after an attempt by an unlocked locker: only SQLite creates it. */
  function LockTableAfter(kind: Kind, r: Replies, hadTable: bool): (table: bool)
    ensures hadTable ==> table
    ensures kind == SQLite && r.lite.createOk ==> table
    ensures kind != SQLite ==> table == hadTable
  {
    if kind == SQLite then hadTable || r.lite.createOk else hadTable
  }

  /**
    Whether the SQLite lock row is committed after a release by a locked
    locker: committing the lock transaction commits the row, and deleting it
    then removes it. The other drivers keep no row.
   */
  function LockRowAfterRelease(kind: Kind, r: Replies, session: bool, row: bool): (after: bool)
    ensures kind == SQLite && ReleaseOutcome(kind, r, session).None? ==> !after
    ensures kind == SQLite && ReleaseOutcome(kind, r, session) == Some(CleanupFailed) ==> after
    ensures kind != SQLite || ReleaseOutcome(kind, r, session) == Some(ReleaseFailed) ==> after == row
  {
    if kind == SQLite && session && r.liteCommitOk then !r.liteDeleteOk else row
  }

  /**
    A SQLite lock released cleanly can be taken again by a new locker whose
    statements succeed, whether or not a row was committed before.
   */
  lemma ReleaseThenRelock(r: Replies, row: bool, next: LiteAcquire)
    requires ReleaseOutcome(SQLite, r, true).None?
    requires next.createOk && next.beginOk && next.insertOk && next.rowsOk
    ensures LiteOutcome(next, LockRowAfterRelease(SQLite, r, true, row)).None?
  {
    StaleRowDoesNotBlock(next);
  }

  class Locker {
    const db: Database
    const kind: Kind
    /** The dedicated connection (PostgreSQL, MySQL) or the lock transaction (SQLite) is open. */
    var session: bool
    var locked: bool

    /** An unlocked locker holds no session; a SQLite locker that holds the lock has its table. */
    ghost predicate Valid()
      reads this, db
    {
      db.Valid() && (!locked ==> !session) && (locked && kind == SQLite ==> db.hasLockTable)
    }

    /** A locker whose release failed: it claims the lock but has nothing left to release it with. */
    predicate Stuck()
      reads this
    {
      locked && !session
    }

    constructor (db: Database, kind: Kind)
      requires db.Valid()
      ensures this.db == db && this.kind == kind
      ensures !locked && !session && Valid()
    {
      this.db := db;
      this.kind := kind;
      locked := false;
      session := false;
    }

    /** `PostgresLocker.Lock` (lock.go:46-74). */
    method LockPostgres(reply: PgAcquire) returns (err: Option<LockError>)
      requires kind == Postgres && Valid()
      modifies this
      ensures Valid()
      ensures old(locked) ==> err == Some(AlreadyLocked) && locked && session == old(session)
      ensures !old(locked) ==> err == PgOutcome(reply) && locked == err.None? && session == err.None?
    {
      if locked {
        return Some(AlreadyLocked);
      }
      if !reply.connOk {
        return Some(ConnectionFailed);
      }
      session := true;
      if !reply.queryOk {
        session := false;
        return Some(AcquireQueryFailed);
      }
      if !reply.acquired {
        session := false;
        return Some(HeldElsewhere);
      }
      locked := true;
      err := None;
    }

    /** `MySQLLocker.Lock` (lock.go:102-130). */
    method LockMySQL(reply: MyAcquire) returns (err: Option<LockError>)
      requires kind == MySQL && Valid()
      modifies this
      ensures Valid()
      ensures old(locked) ==> err == Some(AlreadyLocked) && locked && session == old(session)
      ensures !old(locked) ==> err == MyOutcome(reply) && locked == err.None? && session == err.None?
    {
      if locked {
        return Some(AlreadyLocked);
      }
      if !reply.connOk {
        return Some(ConnectionFailed);
      }
      session := true;
      if !reply.queryOk {
        session := false;
        return Some(AcquireQueryFailed);
      }
      if !(reply.result.Some? && reply.result.value == 1) {
        session := false;
        return Some(HeldElsewhere);
      }
      locked := true;
      err := None;
    }

    /** `SQLiteLocker.Lock` (lock.go:156-220). */
    method LockSQLite(reply: LiteAcquire) returns (err: Option<LockError>)
      requires kind == SQLite && Valid()
      modifies this, db`hasLockTable
      ensures Valid()
      ensures old(locked) ==> err == Some(AlreadyLocked) && locked && session == old(session)
      ensures old(locked) ==> db.hasLockTable == old(db.hasLockTable)
      ensures !old(locked) ==> err == LiteOutcome(reply, db.lockRow) && locked == err.None? && session == err.None?
      ensures !old(locked) ==> db.hasLockTable == (old(db.hasLockTable) || reply.createOk)
    {
      if locked {
        return Some(AlreadyLocked);
      }
      if !reply.createOk {
        return Some(LockTableFailed);
      }
      db.hasLockTable := true;
      if !reply.beginOk {
        return Some(BeginFailed);
      }
      session := true;
      if !reply.insertOk {
        session := false;
        return Some(InsertFailed);
      }
      if !reply.rowsOk {
        session := false;
        return Some(RowsAffectedFailed);
      }
      var rows := if db.lockRow then 0 else 1;
      if rows == 0 {
        match reply.wait {
          case UpdateReturned(ok) =>
            if !ok {
              session := false;
              return Some(UpdateFailed);
            }
          case WaitElapsed =>
            session := false;
            return Some(TimedOut);
          case ContextDone =>
            session := false;
            return Some(Cancelled);
        }
      }
      locked := true;
      err := None;
    }

    /** `Locker.Lock`: the attempt of whichever locker this is, recorded when the locker was unlocked. */
    method Lock(r: Replies) returns (err: Option<LockError>)
      requires Valid()
      modifies this, db`hasLockTable, db`lockCalls
      ensures Valid()
      ensures old(locked) ==> err == Some(AlreadyLocked) && locked && session == old(session)
      ensures old(locked) ==> db.lockCalls == old(db.lockCalls) && db.hasLockTable == old(db.hasLockTable)
      ensures !old(locked) ==> err == AcquireOutcome(kind, r, db.lockRow)
      ensures !old(locked) ==> locked == err.None? && session == err.None?
      ensures !old(locked) ==> db.lockCalls == old(db.lockCalls) + [Acquire(err.None?)]
      ensures !old(locked) ==> db.hasLockTable == LockTableAfter(kind, r, old(db.hasLockTable))
      ensures kind != SQLite ==> db.hasLockTable == old(db.hasLockTable)
    {
      var wasLocked := locked;
      match kind {
        case Postgres => err := LockPostgres(r.pg);
        case MySQL => err := LockMySQL(r.my);
        case SQLite => err := LockSQLite(r.lite);
      }
      if !wasLocked {
        db.lockCalls := db.lockCalls + [Acquire(err.None?)];
      }
    }

    /** `PostgresLocker.Unlock` and `MySQLLocker.Unlock` (lock.go:76-91, 132-147); the connection is closed on every path. */
    method UnlockConnection(releaseOk: bool) returns (err: Option<LockError>)
      requires kind != SQLite && Valid()
      modifies this
      ensures Valid()
      ensures !old(locked) ==> err.None? && !locked && session == old(session)
      ensures old(locked) ==> !session
      ensures old(locked) ==> (err.None? <==> old(session) && releaseOk)
      ensures old(locked) && err.Some? ==> err == Some(ReleaseFailed) && locked
      ensures old(locked) && err.None? ==> !locked
    {
      if !locked {
        return None;
      }
      // The deferred Close runs whatever the query reports.
      var queryOk := session && releaseOk;
      session := false;
      if !queryOk {
        return Some(ReleaseFailed);
      }
      locked := false;
      err := None;
    }

    /**
      `SQLiteLocker.Unlock` (lock.go:222-240): committing ends the lock
      transaction (and commits its lock row); deleting the row follows.
     */
    method UnlockSQLite(commitOk: bool, deleteOk: bool) returns (err: Option<LockError>)
      requires kind == SQLite && Valid()
      modifies this, db`lockRow
      ensures Valid()
      ensures !old(locked) ==> err.None? && !locked && session == old(session) && db.lockRow == old(db.lockRow)
      ensures old(locked) ==> !session
      ensures old(locked) ==> err == (if !(old(session) && commitOk) then Some(ReleaseFailed)
                                      else if !deleteOk then Some(CleanupFailed) else None)
      ensures old(locked) ==> locked == err.Some?
      ensures old(locked) ==> db.lockRow == (if old(session) && commitOk then !deleteOk else old(db.lockRow))
    {
      if !locked {
        return None;
      }
      var committed := session && commitOk;
      // Commit ends the transaction whether or not it succeeds.
      session := false;
      if !committed {
        return Some(ReleaseFailed);
      }
      db.lockRow := true;
      if !deleteOk {
        return Some(CleanupFailed);
      }
      db.lockRow := false;
      locked := false;
      err := None;
    }

    /** `Locker.Unlock`: the release of whichever locker this is, recorded when the locker was locked. */
    method Unlock(r: Replies) returns (err: Option<LockError>)
      requires Valid()
      modifies this, db`lockRow, db`lockCalls
      ensures Valid()
      ensures !old(locked) ==> err.None? && !locked && session == old(session)
      ensures !old(locked) ==> db.lockCalls == old(db.lockCalls) && db.lockRow == old(db.lockRow)
      ensures old(locked) ==> err == ReleaseOutcome(kind, r, old(session))
      ensures old(locked) ==> locked == err.Some? && !session
      ensures old(locked) ==> db.lockCalls == old(db.lockCalls) + [Release(err.None?)]
      ensures old(Stuck()) ==> err == Some(ReleaseFailed) && Stuck()
      ensures old(locked) ==> db.lockRow == LockRowAfterRelease(kind, r, old(session), old(db.lockRow))
      ensures kind != SQLite ==> db.lockRow == old(db.lockRow)
    {
      var wasLocked := locked;
      match kind {
        case Postgres => err := UnlockConnection(r.pgReleaseOk);
        case MySQL => err := UnlockConnection(r.myReleaseOk);
        case SQLite => err := UnlockSQLite(r.liteCommitOk, r.liteDeleteOk);
      }
      if wasLocked {
        db.lockCalls := db.lockCalls + [Release(err.None?)];
      }
    }
  }

  /** `NewLocker` (lock.go:22-35): a fresh, unlocked locker for a supported driver. */
  method NewLocker(db: Database) returns (r: Result<Locker, LockError>)
    requires db.Valid()
    ensures r.Success? <==> LockerKind(db.driver).Some?
    ensures r.Failure? ==> r.error == UnsupportedDriver(db.driver)
    ensures r.Success? ==> fresh(r.value) && r.value.db == db && Some(r.value.kind) == LockerKind(db.driver)
    ensures r.Success? ==> r.value.Valid() && !r.value.locked
  {
    match LockerKind(db.driver) {
      case None => r := Failure(UnsupportedDriver(db.driver));
      case Some(kind) =>
        var locker := new Locker(db, kind);
        r := Success(locker);
    }
  }
}
