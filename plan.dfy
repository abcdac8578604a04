/**
  What the runner (migrate/runner.go) decides, as functions of the catalog and
  the ledger: which migrations `Up` applies and in what order, how far it gets
  before a transaction fails, and which versions `Down` and `DownN` revert.
 */
module Plan {
  import opened Wrappers
  import opened Ordering
  import opened Loader
  import opened State
  import opened Lock

  /** Why a run stops early. */
  datatype RunError =
    | LockerUnavailable(lockErr: LockError)
    | LockNotAcquired(lockErr: LockError)
    | LedgerSetupFailed
    | LoadFailed
    | LedgerUnreadable
    | ApplyFailed(version: int, stage: TxStage)
    | NothingToRollback
    | NoDownMigration
    | RollbackFailed(version: int, stage: TxStage)
    | InvalidSteps(steps: int)
    | NothingToRevert
    | TooManySteps(applied: nat, steps: int)
    | MigrationFileMissing(version: int)
    | MissingDownScript(version: int)
    | RevertFailed(version: int, stage: TxStage)

  // ---------------------------------------------------------------------------
  // Up: the pending migrations (runner.go:46-57)

  /** The migrations whose version is not in `applied`, in the order of `ms`. */
  function Pending(ms: seq<Migration>, applied: set<int>): (p: seq<Migration>)
    ensures |p| <= |ms|
  {
    if ms == [] then []
    else
      var rest := Pending(ms[..|ms| - 1], applied);
      var m := ms[|ms| - 1];
      if m.version in applied then rest else rest + [m]
  }

  /** A migration is pending exactly when it is loaded and its version is not applied. */
  lemma {:induction false} PendingMembers(ms: seq<Migration>, applied: set<int>)
    ensures forall x :: x in Pending(ms, applied) <==> x in ms && x.version !in applied
    decreases |ms|
  {
    if ms != [] {
      var init := ms[..|ms| - 1];
      assert ms == init + [ms[|ms| - 1]];
      PendingMembers(init, applied);
    }
  }

  lemma PendingSnoc(ms: seq<Migration>, m: Migration, applied: set<int>)
    ensures Pending(ms + [m], applied) ==
            Pending(ms, applied) + (if m.version in applied then [] else [m])
  {
    assert (ms + [m])[..|ms|] == ms;
  }

  lemma {:induction false} PendingConcat(a: seq<Migration>, b: seq<Migration>, applied: set<int>)
    ensures Pending(a + b, applied) == Pending(a, applied) + Pending(b, applied)
    decreases |b|
  {
    if b == [] {
      assert a + b == a;
    } else {
      var init := b[..|b| - 1];
      var m := b[|b| - 1];
      assert b == init + [m];
      assert a + b == (a + init) + [m];
      PendingConcat(a, init, applied);
      PendingSnoc(a + init, m, applied);
      PendingSnoc(init, m, applied);
    }
  }

  /** Up applies the pending migrations oldest first. */
  lemma {:induction false} PendingAscending(ms: seq<Migration>, applied: set<int>)
    requires AscendingByVersion(ms)
    ensures AscendingByVersion(Pending(ms, applied))
    decreases |ms|
  {
    if ms != [] {
      var init := ms[..|ms| - 1];
      var m := ms[|ms| - 1];
      assert ms == init + [m];
      PendingAscending(init, applied);
      PendingMembers(init, applied);
      var rest := Pending(init, applied);
      forall x | x in rest ensures x.version < m.version {
        var j :| 0 <= j < |init| && init[j] == x;
      }
    }
  }

  /** Filtering by `a` and then by `b` is filtering by both. */
  lemma {:induction false} PendingTwice(ms: seq<Migration>, a: set<int>, b: set<int>)
    ensures Pending(Pending(ms, a), b) == Pending(ms, a + b)
    decreases |ms|
  {
    if ms != [] {
      var init := ms[..|ms| - 1];
      var m := ms[|ms| - 1];
      PendingTwice(init, a, b);
      if m.version !in a {
        PendingSnoc(Pending(init, a), m, b);
      }
    }
  }

  lemma {:induction false} PendingNoneApplied(ms: seq<Migration>, applied: set<int>)
    requires forall i :: 0 <= i < |ms| ==> ms[i].version !in applied
    ensures Pending(ms, applied) == ms
    decreases |ms|
  {
    if ms != [] {
      PendingNoneApplied(ms[..|ms| - 1], applied);
    }
  }

  lemma PendingAllApplied(ms: seq<Migration>, applied: set<int>)
    requires VersionSet(ms) <= applied
    ensures Pending(ms, applied) == []
  {
    forall i | 0 <= i < |ms| ensures ms[i].version in applied {
      assert ms[i].version in VersionSet(ms);
    }
  }

  /**
    After the first `k` pending migrations are recorded, the pending ones are
    the rest: a run that stopped at a failure is resumed where it stopped.
   */
  lemma ResumeAfterFailure(ms: seq<Migration>, applied: set<int>, k: nat)
    requires AscendingByVersion(ms)
    requires k <= |Pending(ms, applied)|
    ensures var p := Pending(ms, applied);
            Pending(ms, applied + VersionSet(p[..k])) == p[k..]
  {
    var p := Pending(ms, applied);
    PendingAscending(ms, applied);
    PendingTwice(ms, applied, VersionSet(p[..k]));
    DropRecordedPrefix(p, k);
  }

  /** In an ascending sequence, filtering out the versions of its first `k` leaves the rest. */
  lemma DropRecordedPrefix(p: seq<Migration>, k: nat)
    requires AscendingByVersion(p) && k <= |p|
    ensures Pending(p, VersionSet(p[..k])) == p[k..]
  {
    var done := VersionSet(p[..k]);
    assert p == p[..k] + p[k..];
    PendingConcat(p[..k], p[k..], done);
    PendingAllApplied(p[..k], done);
    forall i | 0 <= i < |p[k..]| ensures p[k..][i].version !in done {
      forall j | 0 <= j < k ensures p[..k][j].version != p[k + i].version {
        assert p[j].version < p[k + i].version;
      }
    }
    PendingNoneApplied(p[k..], done);
  }

  /** A run that applies everything pending leaves nothing pending: a second Up is a no-op. */
  lemma UpIdempotent(ms: seq<Migration>, applied: set<int>)
    requires AscendingByVersion(ms)
    ensures Pending(ms, applied + VersionSet(Pending(ms, applied))) == []
  {
    var p := Pending(ms, applied);
    ResumeAfterFailure(ms, applied, |p|);
    assert p[..|p|] == p;
  }

  /** How many pending migrations commit before the first one whose transaction fails. */
  function CommittedCount(p: seq<Migration>, apply: int -> TxReply): (k: nat)
    ensures k <= |p|
    ensures forall j :: 0 <= j < k ==> apply(p[j].version).Commits?
    ensures k < |p| ==> apply(p[k].version).FailsAt?
    decreases |p|
  {
    if p == [] || apply(p[0].version).FailsAt? then 0
    else 1 + CommittedCount(p[1..], apply)
  }

  // ---------------------------------------------------------------------------
  // Down: the newest version's migration (runner.go:137-147)

  /** The first migration with version `v`. */
  function Find(ms: seq<Migration>, v: int): (r: Option<Migration>)
    ensures r.Some? ==> r.value in ms && r.value.version == v
    ensures r.None? <==> v !in VersionSet(ms)
    decreases |ms|
  {
    if ms == [] then None
    else if ms[0].version == v then Some(ms[0])
    else
      var r := Find(ms[1..], v);
      assert v in VersionSet(ms) ==> v in VersionSet(ms[1..]) by {
        if v in VersionSet(ms) {
          var i :| 0 <= i < |ms| && ms[i].version == v;
          assert ms[1..][i - 1] == ms[i];
        }
      }
      assert v in VersionSet(ms[1..]) ==> v in VersionSet(ms) by {
        if v in VersionSet(ms[1..]) {
          var i :| 0 <= i < |ms[1..]| && ms[1..][i].version == v;
          assert ms[i + 1] == ms[1..][i];
        }
      }
      r
  }

  lemma {:induction false} FindSkips(ms: seq<Migration>, v: int, i: nat)
    requires i <= |ms| && forall j :: 0 <= j < i ==> ms[j].version != v
    ensures Find(ms, v) == Find(ms[i..], v)
    decreases i
  {
    if i > 0 {
      FindSkips(ms[1..], v, i - 1);
      assert ms[1..][i - 1..] == ms[i..];
    }
  }

  // ---------------------------------------------------------------------------
  // DownN: the versions to revert and how far it gets (runner.go:233-285)

  /** The catalog by version; a later entry replaces an earlier one with the same version. */
  function ByVersion(ms: seq<Migration>): (mm: map<int, Migration>)
    ensures mm.Keys == VersionSet(ms)
    ensures forall v :: v in mm ==> mm[v].version == v && mm[v] in ms
  {
    if ms == [] then map[]
    else
      var init := ms[..|ms| - 1];
      var m := ms[|ms| - 1];
      assert ms == init + [m];
      var mm := ByVersion(init)[m.version := m];
      assert VersionSet(ms) == VersionSet(init) + {m.version} by {
        forall v | v in VersionSet(ms) ensures v in VersionSet(init) + {m.version} {
          var i :| 0 <= i < |ms| && ms[i].version == v;
          if i < |init| { assert init[i] == ms[i]; }
        }
        forall v | v in VersionSet(init) ensures v in VersionSet(ms) {
          var i :| 0 <= i < |init| && init[i].version == v;
          assert ms[i] == init[i];
        }
      }
      mm
  }

  /** With distinct versions, the map DownN builds and the search Down makes agree. */
  lemma ByVersionIsFind(ms: seq<Migration>, v: int)
    requires AscendingByVersion(ms)
    ensures v in ByVersion(ms) <==> Find(ms, v).Some?
    ensures v in ByVersion(ms) ==> ByVersion(ms)[v] == Find(ms, v).value
  {
    if v in ByVersion(ms) {
      var x := ByVersion(ms)[v];
      var y := Find(ms, v).value;
      var i :| 0 <= i < |ms| && ms[i] == x;
      var j :| 0 <= j < |ms| && ms[j] == y;
    }
  }

  /** The newest `steps` applied versions, newest first. */
  function RevertOrder(applied: seq<int>, steps: nat): (t: seq<int>)
    requires steps <= |applied|
    ensures |t| == steps
    ensures forall i :: 0 <= i < steps ==> t[i] == applied[|applied| - 1 - i]
  {
    Reversed(applied[|applied| - steps..])
  }

  /** DownN can revert `v`: its file was loaded and has a down script. */
  predicate Revertible(v: int, mm: map<int, Migration>) {
    v in mm && mm[v].downSQL != ""
  }

  /**
    How many versions of `order` DownN gets through: each must be revertible
    and, outside a dry run, its transaction must commit.
   */
  function RevertedCount(order: seq<int>, mm: map<int, Migration>, revert: int -> TxReply, dryRun: bool): (k: nat)
    ensures k <= |order|
    ensures forall j :: 0 <= j < k ==> Revertible(order[j], mm) && (dryRun || revert(order[j]).Commits?)
    ensures k < |order| ==> !(Revertible(order[k], mm) && (dryRun || revert(order[k]).Commits?))
    decreases |order|
  {
    if order == [] || !(Revertible(order[0], mm) && (dryRun || revert(order[0]).Commits?)) then 0
    else 1 + RevertedCount(order[1..], mm, revert, dryRun)
  }

  /** The error DownN reports for the version it stops at. */
  function StopError(v: int, mm: map<int, Migration>, revert: int -> TxReply): RunError
    requires !Revertible(v, mm) || revert(v).FailsAt?
  {
    if v !in mm then MigrationFileMissing(v)
    else if mm[v].downSQL == "" then MissingDownScript(v)
    else RevertFailed(v, revert(v).stage)
  }

  /** DownN stops at the first version it cannot revert; the reported error names it. */
  lemma StopErrorNamesVersion(v: int, mm: map<int, Migration>, revert: int -> TxReply)
    requires !Revertible(v, mm) || revert(v).FailsAt?
    ensures StopError(v, mm, revert).version == v
  {
  }

  /**
    Whatever DownN gets through, newest first, the ledger keeps exactly its
    oldest versions: removing the first `k` of the revert order from the
    applied set leaves the first `|applied| - k` applied versions.
   */
  lemma DownNKeepsOldest(applied: seq<int>, steps: nat, k: nat)
    requires StrictlyAscending(applied) && k <= steps <= |applied|
    ensures Elems(applied) - Elems(RevertOrder(applied, steps)[..k]) == Elems(applied[..|applied| - k])
  {
    RemoveReversedPrefix(applied, steps, k);
  }

  /** The single version `DownN(1)` reverts is the one `Down` reverts: the greatest applied one. */
  lemma DownIsDownNOne(ledger: set<int>, v: int)
    requires v in ledger && forall w :: w in ledger ==> w <= v
    ensures RevertOrder(SortedSeq(ledger), 1) == [v]
  {
    var a := SortedSeq(ledger);
    ElemsEmpty(a);
    var top := a[|a| - 1];
    assert top in Elems(a);
    assert v in Elems(a);
    var i :| 0 <= i < |a| && a[i] == v;
  }

  /** The revert order holds the newest `steps` versions. */
  lemma RevertOrderElems(a: seq<int>, steps: nat)
    requires steps <= |a|
    ensures Elems(RevertOrder(a, steps)) == Elems(a[|a| - steps..])
    ensures Elems(a[|a| - steps..]) <= Elems(a)
  {
    var order := RevertOrder(a, steps);
    var suffix := a[|a| - steps..];
    forall x | x in Elems(order) ensures x in Elems(suffix) {
      var i :| 0 <= i < steps && order[i] == x;
      assert suffix[steps - 1 - i] == x;
    }
    forall x | x in Elems(suffix) ensures x in Elems(order) && x in Elems(a) {
      var j :| 0 <= j < steps && suffix[j] == x;
      assert order[steps - 1 - j] == x;
      assert a[|a| - steps + j] == x;
    }
  }

  /** When every catalog version is applied, un-applying some of them makes exactly those pending. */
  lemma PendingAfterRevert(ms: seq<Migration>, ledger: set<int>, reverted: set<int>)
    requires Pending(ms, ledger) == [] && reverted <= VersionSet(ms)
    ensures VersionSet(Pending(ms, ledger - reverted)) == reverted
  {
    var p := Pending(ms, ledger - reverted);
    PendingMembers(ms, ledger - reverted);
    PendingMembers(ms, ledger);
    forall v | v in VersionSet(p) ensures v in reverted {
      var i :| 0 <= i < |p| && p[i].version == v;
      assert p[i] !in Pending(ms, ledger);
    }
    forall v | v in reverted ensures v in VersionSet(p) {
      var i :| 0 <= i < |ms| && ms[i].version == v;
      assert ms[i] !in Pending(ms, ledger);
      assert ms[i] in p;
      var j :| 0 <= j < |p| && p[j] == ms[i];
    }
  }

  lemma VersionSeqOfAscending(p: seq<Migration>)
    requires AscendingByVersion(p)
    ensures StrictlyAscending(VersionSeq(p)) && Elems(VersionSeq(p)) == VersionSet(p)
  {
    var vs := VersionSeq(p);
    forall v | v in Elems(vs) ensures v in VersionSet(p) {
      var i :| 0 <= i < |vs| && vs[i] == v;
    }
    forall v | v in VersionSet(p) ensures v in Elems(vs) {
      var i :| 0 <= i < |p| && p[i].version == v;
      assert vs[i] == v;
    }
  }

  /** What `DownN` leaves when it reverts all `steps` newest versions: the reverted ones are pending again. */
  lemma RevertedArePending(ms: seq<Migration>, ledger: set<int>, a: seq<int>, steps: nat, revert: int -> TxReply)
    requires AscendingByVersion(ms) && Pending(ms, ledger) == []
    requires StrictlyAscending(a) && Elems(a) == ledger && 1 <= steps <= |a|
    requires RevertedCount(RevertOrder(a, steps), ByVersion(ms), revert, false) == steps
    ensures VersionSeq(Pending(ms, ledger - Elems(RevertOrder(a, steps)))) == a[|a| - steps..]
    ensures (ledger - Elems(RevertOrder(a, steps))) + VersionSet(Pending(ms, ledger - Elems(RevertOrder(a, steps)))) == ledger
  {
    var order := RevertOrder(a, steps);
    RevertOrderElems(a, steps);
    RevertedInCatalog(order, ByVersion(ms), revert);
    SuffixAscending(a, |a| - steps);
    ReappliedAreReverted(ms, ledger, Elems(order), a[|a| - steps..]);
  }

  /** A `DownN` outside a dry run that reports no error got through all `steps` newest versions. */
  lemma DownNSucceeded(loaded: Result<seq<Migration>, LoadError>, ledger: set<int>, steps: int, revert: int -> TxReply)
    requires loaded.Success? && DownNSpec(loaded, true, ledger, steps, false, revert).err.None?
    ensures 1 <= steps <= |ledger|
    ensures RevertedCount(RevertOrder(SortedSeq(ledger), steps), ByVersion(loaded.value), revert, false) == steps
    ensures DownNSpec(loaded, true, ledger, steps, false, revert).ledger ==
            ledger - Elems(RevertOrder(SortedSeq(ledger), steps))
  {
    DownNGuards(loaded, true, ledger, steps, false, revert);
    DownNReverts(loaded, ledger, steps, false, revert);
    RevertStepsSucceeded(loaded.value, SortedSeq(ledger), ledger, steps, revert);
  }

  /** A `DownN` that reports no error passed every check before reverting. */
  lemma DownNGuards(loaded: Result<seq<Migration>, LoadError>, hadLedger: bool, before: set<int>, steps: int,
                    dryRun: bool, revert: int -> TxReply)
    requires DownNSpec(loaded, hadLedger, before, steps, dryRun, revert).err.None?
    ensures loaded.Success? && hadLedger && before != {} && 1 <= steps <= |before|
  {
  }

  /** Past its checks, `DownN` reverts the newest `steps` versions of the ledger. */
  lemma DownNReverts(loaded: Result<seq<Migration>, LoadError>, before: set<int>, steps: int, dryRun: bool,
                     revert: int -> TxReply)
    requires loaded.Success? && before != {} && 1 <= steps <= |before|
    ensures DownNSpec(loaded, true, before, steps, dryRun, revert) ==
            RevertStepsSpec(loaded.value, SortedSeq(before), before, steps, dryRun, revert)
  {
  }

  /** Reverting with no error outside a dry run got through every version of the order and removed them all. */
  lemma RevertStepsSucceeded(ms: seq<Migration>, a: seq<int>, before: set<int>, steps: nat, revert: int -> TxReply)
    requires steps <= |a| && RevertStepsSpec(ms, a, before, steps, false, revert).err.None?
    ensures RevertedCount(RevertOrder(a, steps), ByVersion(ms), revert, false) == steps
    ensures RevertStepsSpec(ms, a, before, steps, false, revert).ledger == before - Elems(RevertOrder(a, steps))
  {
    var order := RevertOrder(a, steps);
    assert order[..steps] == order;
  }

  /** An `Up` outside a dry run whose every pending transaction commits records all of them and reports no error. */
  lemma UpCommitsAll(loaded: Result<seq<Migration>, LoadError>, before: set<int>, apply: int -> TxReply)
    requires loaded.Success?
    requires CommittedCount(Pending(loaded.value, before), apply) == |Pending(loaded.value, before)|
    ensures UpSpec(loaded, true, before, false, apply) == Outcome(None, before + VersionSet(Pending(loaded.value, before)))
  {
    var p := Pending(loaded.value, before);
    assert p[..|p|] == p;
  }

  /**
    `DownN` and then `Up`: when nothing was pending and `DownN` reverted all
    `steps` newest versions, the next `Up` finds exactly the reverted
    migrations pending, oldest first, and once their transactions commit the
    ledger is back to what it was.
   */
  lemma RevertThenReapply(loaded: Result<seq<Migration>, LoadError>, ledger: set<int>, steps: int,
                          revert: int -> TxReply, apply: int -> TxReply)
    requires loaded.Success? && AscendingByVersion(loaded.value) && Pending(loaded.value, ledger) == []
    requires DownNSpec(loaded, true, ledger, steps, false, revert).err.None?
    ensures 1 <= steps <= |SortedSeq(ledger)|
    ensures var a := SortedSeq(ledger);
            var left := DownNSpec(loaded, true, ledger, steps, false, revert).ledger;
            VersionSeq(Pending(loaded.value, left)) == a[|a| - steps..]
    ensures var left := DownNSpec(loaded, true, ledger, steps, false, revert).ledger;
            var p := Pending(loaded.value, left);
            CommittedCount(p, apply) == |p| ==> UpSpec(loaded, true, left, false, apply) == Outcome(None, ledger)
  {
    DownNSucceeded(loaded, ledger, steps, revert);
    var left := DownNSpec(loaded, true, ledger, steps, false, revert).ledger;
    ReapplyRestores(loaded, ledger, SortedSeq(ledger), steps, left, revert, apply);
  }

  /** `RevertThenReapply` for a given ascending listing `a` of the ledger and what the revert left. */
  lemma ReapplyRestores(loaded: Result<seq<Migration>, LoadError>, ledger: set<int>, a: seq<int>, steps: nat,
                        left: set<int>, revert: int -> TxReply, apply: int -> TxReply)
    requires loaded.Success? && AscendingByVersion(loaded.value) && Pending(loaded.value, ledger) == []
    requires StrictlyAscending(a) && Elems(a) == ledger && 1 <= steps <= |a|
    requires RevertedCount(RevertOrder(a, steps), ByVersion(loaded.value), revert, false) == steps
    requires left == ledger - Elems(RevertOrder(a, steps))
    ensures VersionSeq(Pending(loaded.value, left)) == a[|a| - steps..]
    ensures var p := Pending(loaded.value, left);
            CommittedCount(p, apply) == |p| ==> UpSpec(loaded, true, left, false, apply) == Outcome(None, ledger)
  {
    RevertedArePending(loaded.value, ledger, a, steps, revert);
    var p := Pending(loaded.value, left);
    if CommittedCount(p, apply) == |p| {
      UpCommitsAll(loaded, left, apply);
    }
  }

  /**
    When nothing is pending, removing versions of the catalog from the ledger
    makes exactly those pending, in ascending order.
   */
  lemma ReappliedAreReverted(ms: seq<Migration>, ledger: set<int>, reverted: set<int>, ascending: seq<int>)
    requires AscendingByVersion(ms) && Pending(ms, ledger) == []
    requires reverted <= VersionSet(ms) && reverted <= ledger
    requires StrictlyAscending(ascending) && Elems(ascending) == reverted
    ensures var p := Pending(ms, ledger - reverted);
            VersionSeq(p) == ascending && (ledger - reverted) + VersionSet(p) == ledger
  {
    PendingAfterRevert(ms, ledger, reverted);
    var p := Pending(ms, ledger - reverted);
    PendingAscending(ms, ledger - reverted);
    VersionSeqOfAscending(p);
    AscendingUnique(VersionSeq(p), ascending);
    SubtractAdd(ledger, reverted);
  }

  lemma SubtractAdd(s: set<int>, r: set<int>)
    requires r <= s
    ensures (s - r) + r == s
  {
  }

  /** Every version DownN got through has a file in the catalog. */
  lemma RevertedInCatalog(order: seq<int>, mm: map<int, Migration>, revert: int -> TxReply)
    requires RevertedCount(order, mm, revert, false) == |order|
    ensures Elems(order) <= mm.Keys
  {
    forall v | v in Elems(order) ensures v in mm {
      var i :| 0 <= i < |order| && order[i] == v;
      assert Revertible(order[i], mm);
    }
  }

  // ---------------------------------------------------------------------------
  // What each run reports and the ledger it leaves, once past the lock

  datatype Outcome = Outcome(err: Option<RunError>, ledger: set<int>)

  /**
    `Up` (runner.go:34-103): ensure the ledger table, load, then run the
    pending migrations' transactions in order until one fails. A dry run
    changes nothing.
   */
  function UpSpec(loaded: Result<seq<Migration>, LoadError>, ensureOk: bool, before: set<int>, dryRun: bool,
                  apply: int -> TxReply): Outcome
  {
    if !ensureOk then Outcome(Some(LedgerSetupFailed), before)
    else if loaded.Failure? then Outcome(Some(LoadFailed), before)
    else if dryRun then Outcome(None, before)
    else
      var p := Pending(loaded.value, before);
      var k := CommittedCount(p, apply);
      Outcome(if k == |p| then None else Some(ApplyFailed(p[k].version, apply(p[k].version).stage)),
              before + VersionSet(p[..k]))
  }

  /** Revert version `v` as `Down` does once it knows it (runner.go:137-183). */
  function RollbackSpec(ms: seq<Migration>, v: int, before: set<int>, dryRun: bool, revert: int -> TxReply): Outcome {
    var target := Find(ms, v);
    if target.None? || target.value.downSQL == "" then Outcome(Some(NoDownMigration), before)
    else if dryRun then Outcome(None, before)
    else match revert(v)
      case FailsAt(stage) => Outcome(Some(RollbackFailed(v, stage)), before)
      case Commits => Outcome(None, before - {v})
  }

  /**
    `Down` (runner.go:128-183): without a catalog, a ledger table or an
    applied version there is nothing to roll back; otherwise the greatest
    applied version is reverted.
   */
  function DownSpec(loaded: Result<seq<Migration>, LoadError>, hadLedger: bool, before: set<int>, dryRun: bool,
                    revert: int -> TxReply): Outcome
  {
    if loaded.Failure? || !hadLedger || before == {} then Outcome(Some(NothingToRollback), before)
    else RollbackSpec(loaded.value, Greatest(before), before, dryRun, revert)
  }

  /**
    `DownN` (runner.go:193-292): validate `steps`, load, read the ledger, then
    revert the newest `steps` versions newest first until one cannot be reverted.
   */
  function DownNSpec(loaded: Result<seq<Migration>, LoadError>, hadLedger: bool, before: set<int>, steps: int,
                     dryRun: bool, revert: int -> TxReply): Outcome
  {
    if steps < 1 then Outcome(Some(InvalidSteps(steps)), before)
    else if loaded.Failure? then Outcome(Some(LoadFailed), before)
    else if !hadLedger then Outcome(Some(LedgerUnreadable), before)
    else if before == {} then Outcome(Some(NothingToRevert), before)
    else if steps > |before| then Outcome(Some(TooManySteps(|before|, steps)), before)
    else RevertStepsSpec(loaded.value, SortedSeq(before), before, steps, dryRun, revert)
  }

  /**
    Revert the newest `steps` of the applied versions `a` (ascending), newest
    first, until one is not revertible (runner.go:233-285).
   */
  function RevertStepsSpec(ms: seq<Migration>, a: seq<int>, before: set<int>, steps: nat, dryRun: bool,
                           revert: int -> TxReply): Outcome
    requires steps <= |a|
  {
    var order := RevertOrder(a, steps);
    var mm := ByVersion(ms);
    var k := RevertedCount(order, mm, revert, dryRun);
    Outcome(if k == steps then None else Some(StopError(order[k], mm, revert)),
            if dryRun then before else before - Elems(order[..k]))
  }

  /** A dry run never changes the ledger. */
  lemma DryRunsChangeNothing(loaded: Result<seq<Migration>, LoadError>, ensureOk: bool, hadLedger: bool,
                             before: set<int>, steps: int, apply: int -> TxReply, revert: int -> TxReply)
    ensures UpSpec(loaded, ensureOk, before, true, apply).ledger == before
    ensures DownSpec(loaded, hadLedger, before, true, revert).ledger == before
    ensures DownNSpec(loaded, hadLedger, before, steps, true, revert).ledger == before
  {
  }

  /** `Up` only adds versions, and each added one belongs to a loaded migration that was pending. */
  lemma UpOnlyAddsPending(loaded: Result<seq<Migration>, LoadError>, ensureOk: bool, before: set<int>,
                          apply: int -> TxReply)
    ensures var o := UpSpec(loaded, ensureOk, before, false, apply);
            before <= o.ledger &&
            forall v :: v in o.ledger - before ==> loaded.Success? && v in VersionSet(Pending(loaded.value, before))
  {
    if ensureOk && loaded.Success? {
      var p := Pending(loaded.value, before);
      var k := CommittedCount(p, apply);
      forall v | v in VersionSet(p[..k]) ensures v in VersionSet(p) {
        var i :| 0 <= i < k && p[..k][i].version == v;
        assert p[i] == p[..k][i];
      }
    }
  }

  /** A second `Up` after one that succeeded applies nothing and succeeds. */
  lemma UpTwice(loaded: Result<seq<Migration>, LoadError>, before: set<int>, apply: int -> TxReply,
                apply2: int -> TxReply)
    requires loaded.Success? ==> AscendingByVersion(loaded.value)
    requires UpSpec(loaded, true, before, false, apply).err.None?
    ensures var first := UpSpec(loaded, true, before, false, apply);
            UpSpec(loaded, true, first.ledger, false, apply2) == Outcome(None, first.ledger)
  {
    var p := Pending(loaded.value, before);
    assert p[..|p|] == p;
    UpIdempotent(loaded.value, before);
  }

  /** After a failed `Up`, the next `Up` starts at the migration that failed. */
  lemma UpResumes(loaded: Result<seq<Migration>, LoadError>, before: set<int>, apply: int -> TxReply)
    requires loaded.Success? && AscendingByVersion(loaded.value)
    ensures var p := Pending(loaded.value, before);
            var first := UpSpec(loaded, true, before, false, apply);
            Pending(loaded.value, first.ledger) == p[CommittedCount(p, apply)..]
  {
    ResumeAfterFailure(loaded.value, before, CommittedCount(Pending(loaded.value, before), apply));
  }

  /** `Down` reverts the greatest applied version or nothing. */
  lemma DownRemovesNewest(loaded: Result<seq<Migration>, LoadError>, hadLedger: bool, before: set<int>,
                          dryRun: bool, revert: int -> TxReply)
    ensures var o := DownSpec(loaded, hadLedger, before, dryRun, revert);
            o.ledger == before ||
            (before != {} && o.err.None? && !dryRun && o.ledger == before - {Greatest(before)})
    ensures var o := DownSpec(loaded, hadLedger, before, dryRun, revert);
            o.err.None? && !dryRun ==> before != {} && o.ledger == before - {Greatest(before)}
    ensures var o := DownSpec(loaded, hadLedger, before, dryRun, revert);
            o.err.Some? || dryRun ==> o.ledger == before
  {
  }

  /** `DownN` keeps exactly the oldest applied versions: the ledger stays a prefix of the applied order. */
  lemma DownNKeepsPrefix(loaded: Result<seq<Migration>, LoadError>, hadLedger: bool, before: set<int>,
                         steps: int, revert: int -> TxReply)
    ensures exists n :: 0 <= n <= |SortedSeq(before)| &&
              DownNSpec(loaded, hadLedger, before, steps, false, revert).ledger == Elems(SortedSeq(before)[..n])
  {
    var a := SortedSeq(before);
    var o := DownNSpec(loaded, hadLedger, before, steps, false, revert);
    var n := |a|;
    if 1 <= steps && loaded.Success? && hadLedger && before != {} && steps <= |before| {
      var order := RevertOrder(a, steps);
      var k := RevertedCount(order, ByVersion(loaded.value), revert, false);
      DownNKeepsOldest(a, steps, k);
      n := |a| - k;
    } else {
      assert a[..|a|] == a;
    }
    assert 0 <= n <= |a| && o.ledger == Elems(a[..n]);
  }

  /** Reverting the one-version order `[v]`: `DownN(1)`'s count and what it removes. */
  lemma RevertSingle(v: int, mm: map<int, Migration>, revert: int -> TxReply, dryRun: bool)
    ensures var k := RevertedCount([v], mm, revert, dryRun);
            (k == 1 <==> Revertible(v, mm) && (dryRun || revert(v).Commits?)) &&
            Elems([v][..k]) == (if k == 1 then {v} else {})
  {
    var k := RevertedCount([v], mm, revert, dryRun);
    if k == 1 {
      assert [v][..k] == [v];
      assert v in Elems([v]);
    } else {
      assert [v][..k] == [];
    }
  }

  /** `DownN(1)` on a non-empty ledger reverts the greatest applied version alone. */
  lemma DownNOfOne(loaded: Result<seq<Migration>, LoadError>, before: set<int>, dryRun: bool, revert: int -> TxReply)
    requires loaded.Success? && before != {}
    ensures var v := Greatest(before);
            var mm := ByVersion(loaded.value);
            var k := RevertedCount([v], mm, revert, dryRun);
            k <= 1 &&
            DownNSpec(loaded, true, before, 1, dryRun, revert) ==
              Outcome(if k == 1 then None else Some(StopError(v, mm, revert)),
                      if dryRun then before else before - Elems([v][..k]))
  {
    DownIsDownNOne(before, Greatest(before));
  }

  /** `Down` and `DownN(1)` revert the same version, with the same effect on the ledger. */
  lemma DownIsDownNOfOne(loaded: Result<seq<Migration>, LoadError>, before: set<int>, dryRun: bool,
                         revert: int -> TxReply)
    requires loaded.Success? && AscendingByVersion(loaded.value) && before != {}
    ensures DownSpec(loaded, true, before, dryRun, revert).ledger ==
            DownNSpec(loaded, true, before, 1, dryRun, revert).ledger
    ensures DownSpec(loaded, true, before, dryRun, revert).err.None? <==>
            DownNSpec(loaded, true, before, 1, dryRun, revert).err.None?
  {
    var ms := loaded.value;
    var v := Greatest(before);
    var mm := ByVersion(ms);
    var k := RevertedCount([v], mm, revert, dryRun);
    DownNOfOne(loaded, before, dryRun, revert);
    ByVersionIsFind(ms, v);
    RevertSingle(v, mm, revert, dryRun);
    var down := DownSpec(loaded, true, before, dryRun, revert);
    assert down == RollbackSpec(ms, v, before, dryRun, revert);
    if k == 1 {
      assert down == Outcome(None, if dryRun then before else before - {v});
    } else {
      assert down.ledger == before && down.err.Some?;
    }
  }
}
