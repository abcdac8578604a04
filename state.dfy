/**
  The database as the migrator sees it (migrate/state.go): the ledger table
  `schema_migrations` holding the applied versions, the `migration_lock`
  table the SQLite locker uses, and the migration transactions that change
  the ledger.
 */
module State {
  import opened Wrappers
  import opened Ordering

  /** A lock attempt or release that reached the database, with what it reported. */
  datatype LockCall = Acquire(granted: bool) | Release(released: bool)

  /** The steps of one migration transaction, in the order they run. */
  datatype TxStage = Begin | Script | Record | Commit

  /** How the database answers one migration transaction: it fails at a step, or commits. */
  datatype TxReply = FailsAt(stage: TxStage) | Commits

  datatype StateError = NoLedgerTable | EmptyLedger | EnsureFailed

  class Database {
    /** The driver name the connection was opened with. */
    const driver: string
    /** `schema_migrations` exists. */
    var hasLedger: bool
    /** The versions recorded in `schema_migrations`. */
    var ledger: set<int>
    /** `migration_lock` exists (SQLite only). */
    var hasLockTable: bool
    /** The row `id = 1` of `migration_lock` is committed. */
    var lockRow: bool
    /** Every lock attempt by an unlocked locker and every release by a locked one, oldest first. */
    ghost var lockCalls: seq<LockCall>

    /** A missing table holds no rows. */
    ghost predicate Valid()
      reads this
    {
      (!hasLedger ==> ledger == {}) && (!hasLockTable ==> !lockRow)
    }

    /** A database on which the migrator has not run yet. */
    constructor (driver: string)
      ensures this.driver == driver && Valid()
      ensures !hasLedger && !hasLockTable && lockCalls == []
    {
      this.driver := driver;
      hasLedger := false;
      ledger := {};
      hasLockTable := false;
      lockRow := false;
      lockCalls := [];
    }

    /**
      `ensure` (state.go:5-11): create the ledger table unless it exists.
      `ok` is whether the statement succeeds; an existing ledger keeps its rows.
     */
    method Ensure(ok: bool) returns (err: Option<StateError>)
      requires Valid()
      modifies this`hasLedger
      ensures Valid()
      ensures ok ==> err.None? && hasLedger
      ensures !ok ==> err == Some(EnsureFailed) && hasLedger == old(hasLedger)
    {
      if !ok {
        return Some(EnsureFailed);
      }
      hasLedger := true;
      err := None;
    }

    /** `applied` (state.go:13-17): every recorded version, ascending; fails without the table. */
    function Applied(): (r: Result<seq<int>, StateError>)
      reads this
      ensures r.Success? <==> hasLedger
      ensures r.Success? ==> StrictlyAscending(r.value) && Elems(r.value) == ledger
      ensures r.Failure? ==> r.error == NoLedgerTable
    {
      if hasLedger then Success(SortedSeq(ledger)) else Failure(NoLedgerTable)
    }

    /**
      `last` (state.go:19-23): the greatest recorded version; fails without
      the table and when the table has no row.
     */
    function Last(): (r: Result<int, StateError>)
      reads this
      ensures r.Success? <==> hasLedger && ledger != {}
      ensures r.Success? ==> r.value in ledger && forall v :: v in ledger ==> v <= r.value
      ensures r.Failure? && hasLedger ==> r.error == EmptyLedger
    {
      if !hasLedger then Failure(NoLedgerTable)
      else if ledger == {} then Failure(EmptyLedger)
      else Success(Greatest(ledger))
    }

    /** The version `last` returns is the final one `applied` lists. */
    lemma LastIsNewestApplied()
      requires hasLedger && ledger != {}
      ensures Applied().Success? && Applied().value != []
      ensures Last() == Success(Applied().value[|Applied().value| - 1])
    {
      var a := SortedSeq(ledger);
      ElemsEmpty(a);
      AscendingUnique(a, a);
    }

    /**
      One migration's transaction in `Up` (runner.go:70-89): its script and
      the insertion of its version commit together or not at all.
     */
    method ApplyTx(v: int, reply: TxReply) returns (failed: Option<TxStage>)
      requires hasLedger
      modifies this`ledger
      ensures reply.Commits? ==> failed.None? && ledger == old(ledger) + {v}
      ensures reply.FailsAt? ==> failed == Some(reply.stage) && ledger == old(ledger)
    {
      if reply.FailsAt? {
        return Some(reply.stage);
      }
      ledger := ledger + {v};
      failed := None;
    }

    /**
      One migration's transaction in `Down` and `DownN` (runner.go:161-180,
      264-282): its down script and the deletion of its version commit
      together or not at all.
     */
    method RevertTx(v: int, reply: TxReply) returns (failed: Option<TxStage>)
      requires hasLedger
      modifies this`ledger
      ensures reply.Commits? ==> failed.None? && ledger == old(ledger) - {v}
      ensures reply.FailsAt? ==> failed == Some(reply.stage) && ledger == old(ledger)
    {
      if reply.FailsAt? {
        return Some(reply.stage);
      }
      ledger := ledger - {v};
      failed := None;
    }
  }
}
