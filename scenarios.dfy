/** The integration tests, run against the model: each method builds a
    fresh account and a target with the default options, performs the
    test's calls with no backend faults, and states what the test expects. */
module Scenarios {
  import opened Errors
  import opened StringOrder
  import opened Store
  import opened Options
  import opened LockProtocol
  import opened Unlocking
  import opened DynamoTarget

  /** A target with the default names, both tables provisioned and empty. */
  method Provisioned() returns (t: Target)
    ensures fresh(t) && fresh(t.client)
    ensures t.tableName == "_migrations" && t.lockTableName == "_migrations-lock" && t.lockID == "migrations"
    ensures t.client.tables == map["_migrations" := map[], "_migrations-lock" := map[]]
  {
    var client := new Backend(map[]);
    t := new Target(client, []);
    var r := t.Create(false, false, false);
  }

  /** Create yields exactly the two default tables whichever of them existed. */
  method CreateFromAnyStart(existing: set<string>) returns (r: Outcome, names: set<string>)
    requires existing <= {"_migrations", "_migrations-lock"}
    ensures r == Pass && names == {"_migrations", "_migrations-lock"}
  {
    var client := new Backend(map n | n in existing :: map[]);
    var t := new Target(client, []);
    r := t.Create(false, false, false);
    names := client.tables.Keys;
  }

  /** Create is idempotent: a second call succeeds and changes nothing. */
  method CreateTwice() returns (first: Outcome, second: Outcome, same: bool)
    ensures first == Pass && second == Pass && same
  {
    var client := new Backend(map[]);
    var t := new Target(client, []);
    first := t.Create(false, false, false);
    var before := client.tables;
    second := t.Create(false, false, false);
    same := client.tables == before;
  }

  /** Destroy after Create leaves no table. */
  method DestroyAfterCreate() returns (r: Outcome, names: set<string>)
    ensures r == Pass && names == {}
  {
    var t := Provisioned();
    r := t.Destroy(false, false);
    names := t.client.tables.Keys;
  }

  /** Create stops at the first failure: a failed migrations-table create
      leaves the account empty, and a failed lock-table create leaves the
      migrations table in place. */
  method CreateStopsAtFailure() returns (first: Outcome, firstNames: set<string>,
                                         second: Outcome, secondNames: set<string>)
    ensures first == Fail(Fault) && firstNames == {}
    ensures second == Fail(Fault) && secondNames == {"_migrations"}
  {
    var client := new Backend(map[]);
    var t := new Target(client, []);
    first := t.Create(false, true, false);
    firstNames := client.tables.Keys;
    second := t.Create(false, false, true);
    secondNames := client.tables.Keys;
  }

  /** A failed lock-table drop comes after the migrations table is gone;
      nothing is restored. */
  method DestroyStopsAfterFirstDrop() returns (r: Outcome, names: set<string>)
    ensures r == Fail(Fault) && names == {"_migrations-lock"}
  {
    var t := Provisioned();
    r := t.Destroy(false, true);
    names := t.client.tables.Keys;
  }

  /** Adding "1" twice: the second add is refused, one dirty record remains. */
  method AddTwice() returns (first: Outcome, second: Outcome, ledger: Table)
    ensures first == Pass && second == Fail(MigrationAlreadyExists)
    ensures ledger == map["1" := true]
  {
    var t := Provisioned();
    first := t.Add("1", false);
    second := t.Add("1", false);
    ledger := t.client.tables["_migrations"];
  }

  /** Removing from an empty ledger fails; removing an added record empties it. */
  method RemoveCases() returns (absent: Outcome, present: Outcome, ledger: Table)
    ensures absent == Fail(MigrationNotFound) && present == Pass && ledger == map[]
  {
    var t := Provisioned();
    absent := t.Remove("1", false);
    var added := t.Add("1", false);
    present := t.Remove("1", false);
    ledger := t.client.tables["_migrations"];
  }

  /** Finishing needs a record; finishing an added one clears its dirty flag. */
  method FinishCases() returns (absent: Outcome, present: Outcome, ledger: Table)
    ensures absent == Fail(MigrationNotFound) && present == Pass && ledger == map["1" := false]
  {
    var t := Provisioned();
    absent := t.FinishMigration("1", false);
    var added := t.Add("1", false);
    present := t.FinishMigration("1", false);
    ledger := t.client.tables["_migrations"];
  }

  /** Starting needs a record; starting a finished one sets its dirty flag again. */
  method StartCases() returns (absent: Outcome, present: Outcome, ledger: Table)
    ensures absent == Fail(MigrationNotFound) && present == Pass && ledger == map["1" := true]
  {
    var t := Provisioned();
    absent := t.StartMigration("1", false);
    var added := t.Add("1", false);
    var finished := t.FinishMigration("1", false);
    present := t.StartMigration("1", false);
    ledger := t.client.tables["_migrations"];
  }

  /** A provisioned target whose ledger holds `x` and then `y`, both finished. */
  method FinishedPair(x: string, y: string) returns (t: Target)
    requires x != y
    ensures fresh(t.client) && t.tableName == "_migrations"
    ensures "_migrations" in t.client.tables && t.Ledger() == map[x := false, y := false]
  {
    t := Provisioned();
    var ax := t.Add(x, false);
    var fx := t.FinishMigration(x, false);
    var ay := t.Add(y, false);
    var fy := t.FinishMigration(y, false);
  }

  /** Two finished migrations are listed in order. */
  method DoneListsFinished() returns (r: Result<seq<string>>)
    ensures r == Success(["1", "2"])
  {
    var t := FinishedPair("1", "2");
    assert !t.Ledger()["1"] && !t.Ledger()["2"];
    r := t.Done(false);
    assert Less("1", "2");
    StrictlySortedUnique(r.value, ["1", "2"]);
  }

  /** A migration left dirty makes both Done and Current fail. */
  method DirtyBlocksDoneAndCurrent() returns (done: Result<seq<string>>, current: Result<string>)
    ensures done == Failure(DirtyMigration) && current == Failure(DirtyMigration)
  {
    var t := Provisioned();
    var a1 := t.Add("1", false);
    var f1 := t.FinishMigration("1", false);
    var a2 := t.Add("2", false);
    assert t.Ledger()["2"];
    done := t.Done(false);
    current := t.Current(false);
  }

  /** With nothing finished, Current fails. */
  method CurrentOfEmpty() returns (r: Result<string>)
    ensures r == Failure(NoCurrentMigration)
  {
    var t := Provisioned();
    r := t.Current(false);
  }

  /** With "2" finished before "1", Current is "2", not the latest added. */
  method CurrentIsGreatest() returns (r: Result<string>)
    ensures r == Success("2")
  {
    var t := FinishedPair("2", "1");
    assert !t.Ledger()["1"] && !t.Ledger()["2"];
    r := t.Current(false);
    assert Less("1", "2");
    LessAsymmetric("1", "2");
    assert "2" in t.Ledger();
    assert LessEq("2", r.value);
  }

  /** Lock then Unlock gives back the lock table as it was; while the lock is
      held another Lock only waits; unlocking twice is harmless. */
  method LockUnlock() returns (held: Acquisition, contended: Acquisition, first: Outcome, second: Outcome, restored: bool)
    ensures held.Acquired? && contended == Polling && first == Pass && second == Pass && restored
  {
    var t := Provisioned();
    var before := t.client.tables["_migrations-lock"];
    held := t.Lock([false]);
    contended := t.Lock([false, false, false]);
    first := held.unlocker.Unlock(false);
    second := held.unlocker.Unlock(false);
    ReleaseUndoesAcquire(before, "migrations");
    restored := t.client.tables["_migrations-lock"] == before;
  }
}
