/** The migration target: a ledger of migration records in one table, an
    advisory lock in another, both kept through a `Backend`. Each operation
    is the single backend request (or short sequence of requests) the
    source issues, with its outcome mapped to the error kinds the runner
    branches on. */
module DynamoTarget {
  import opened Errors
  import opened StringOrder
  import opened Sorting
  import opened Store
  import opened Options
  import opened LockProtocol
  import opened Unlocking

  /** Some record is dirty: a migration was started and not finished. */
  predicate HasDirty(ledger: Table) {
    exists id :: id in ledger && ledger[id]
  }

  /** The account after making sure a table called `name` exists: an
      existing table is kept with its items, a missing one is added empty. */
  function WithTable(tables: map<string, Table>, name: string): map<string, Table> {
    if name in tables then tables else tables[name := map[]]
  }

  /** What one call of `Lock` ends with. `Polling` means the given attempts
      all found the lock taken: the source would still be waiting. */
  datatype Acquisition =
    | Acquired(unlocker: Unlocker)
    | Aborted(error: Error)
    | Polling

  class Target {
    const client: Backend
    const tableName: string
    const lockTableName: string
    const lockID: string

    /** NewTarget: starts from the defaults and runs the options in order. */
    constructor (client: Backend, opts: seq<Option>)
      ensures this.client == client
      ensures Opts(lockID, lockTableName, tableName) == ApplyAll(DefaultOpts(), opts)
    {
      var options := DefaultOpts();
      for i := 0 to |opts|
        invariant options == ApplyAll(DefaultOpts(), opts[..i])
      {
        assert opts[..i + 1][..i] == opts[..i];
        options := Apply(opts[i], options);
      }
      assert opts[..|opts|] == opts;
      this.client := client;
      this.tableName := options.tableName;
      this.lockTableName := options.lockTableName;
      this.lockID := options.lockID;
    }

    /** The records of the migrations table (none while it does not exist). */
    ghost function Ledger(): Table
      reads client
    {
      if tableName in client.tables then client.tables[tableName] else map[]
    }

    /** The items of the lock table (none while it does not exist). */
    ghost function LockTable(): Table
      reads client
    {
      if lockTableName in client.tables then client.tables[lockTableName] else map[]
    }

    /** The ids of all records, ascending, provided none is dirty. A partial
        list is never returned. */
    method Done(fault: bool) returns (r: Result<seq<string>>)
      ensures r == Failure(Fault) <==> fault || tableName !in client.tables
      ensures r == Failure(DirtyMigration) <==> !fault && tableName in client.tables && HasDirty(Ledger())
      ensures r.Success? <==> !fault && tableName in client.tables && !HasDirty(Ledger())
      ensures r.Success? ==> StrictlySorted(r.value) && forall id :: id in r.value <==> id in Ledger()
    {
      var scan := client.Scan(tableName, fault);
      if scan.Failure? {
        return Failure(Fault);
      }
      var items := scan.value;
      var ids: seq<string> := [];
      for i := 0 to |items|
        invariant |ids| == i
        invariant forall k :: 0 <= k < i ==> ids[k] == items[k].0 && !items[k].1
      {
        if items[i].1 {
          assert Ledger()[items[i].0];
          return Failure(DirtyMigration);
        }
        ids := ids + [items[i].0];
      }
      assert !HasDirty(Ledger()) by {
        forall id | id in Ledger() ensures !Ledger()[id] {
          var k :| 0 <= k < |items| && items[k] == (id, Ledger()[id]);
        }
      }
      assert Distinct(ids);
      var a := new string[|ids|](k requires 0 <= k < |ids| => ids[k]);
      assert a[..] == ids;
      SortInPlace(a);
      PermutationKeepsDistinct(ids, a[..]);
      SortedDistinctIsStrictlySorted(a[..]);
      forall id ensures id in a[..] <==> id in Ledger() {
        assert id in a[..] <==> id in multiset(a[..]);
        if id in Ledger() {
          var k :| 0 <= k < |items| && items[k] == (id, Ledger()[id]);
          assert ids[k] == id;
        }
      }
      return Success(a[..]);
    }

    /** The greatest finished id; errors of `Done` are passed on. */
    method Current(fault: bool) returns (r: Result<string>)
      ensures r == Failure(Fault) <==> fault || tableName !in client.tables
      ensures r == Failure(DirtyMigration) <==> !fault && tableName in client.tables && HasDirty(Ledger())
      ensures r == Failure(NoCurrentMigration) <==>
        !fault && tableName in client.tables && !HasDirty(Ledger()) && Ledger() == map[]
      ensures r.Success? <==> !fault && tableName in client.tables && !HasDirty(Ledger()) && Ledger() != map[]
      ensures r.Success? ==> r.value in Ledger() && forall id :: id in Ledger() ==> LessEq(id, r.value)
    {
      var done := Done(fault);
      if done.Failure? {
        return Failure(done.error);
      }
      if |done.value| == 0 {
        return Failure(NoCurrentMigration);
      }
      var last := done.value[|done.value| - 1];
      assert last in Ledger();
      forall id | id in Ledger() ensures LessEq(id, last) {
        LastIsGreatest(done.value, id);
      }
      return Success(last);
    }

    /** Provisions both tables, creating only those not listed. */
    method Create(listFault: bool, tableFault: bool, lockTableFault: bool) returns (r: Outcome)
      modifies client
      ensures r.Pass? <==>
        && !listFault
        && (tableName in old(client.tables) || !tableFault)
        && (lockTableName in old(client.tables) || (!lockTableFault && lockTableName != tableName))
      ensures r.Fail? ==> r.error == Fault
      ensures r.Pass? ==> client.tables.Keys == old(client.tables).Keys + {tableName, lockTableName}
      ensures forall n :: n in old(client.tables) ==> n in client.tables && client.tables[n] == old(client.tables)[n]
      ensures forall n :: n in client.tables && n !in old(client.tables) ==>
        (n == tableName || n == lockTableName) && client.tables[n] == map[]
      ensures client.tables ==
        if listFault || (tableName !in old(client.tables) && tableFault) then old(client.tables)
        else if lockTableName in old(client.tables) || lockTableName == tableName || lockTableFault
        then WithTable(old(client.tables), tableName)
        else WithTable(old(client.tables), tableName)[lockTableName := map[]]
    {
      var list := client.ListTables(listFault);
      if list.Failure? {
        return Fail(Fault);
      }
      var tables: set<string> := {};
      for i := 0 to |list.value|
        invariant forall n :: n in tables <==> n in list.value[..i]
      {
        tables := tables + {list.value[i]};
      }
      assert list.value[..|list.value|] == list.value;
      if tableName !in tables {
        var c := client.CreateTable(tableName, tableFault);
        if c.Fail? {
          return Fail(Fault);
        }
      }
      if lockTableName !in tables {
        // `tables` is the listing taken before the first create.
        var c := client.CreateTable(lockTableName, lockTableFault);
        if c.Fail? {
          return Fail(Fault);
        }
      }
      return Pass;
    }

    /** Drops the migrations table, then the lock table. If the first drop
        fails the lock table is not touched. */
    method Destroy(tableFault: bool, lockTableFault: bool) returns (r: Outcome)
      modifies client
      ensures r.Pass? <==>
        !tableFault && tableName in old(client.tables) &&
        !lockTableFault && lockTableName in old(client.tables) && lockTableName != tableName
      ensures r.Fail? ==> r.error == Fault
      ensures r.Pass? ==> client.tables == old(client.tables) - {tableName, lockTableName}
      ensures r.Fail? ==>
        client.tables ==
          if !tableFault && tableName in old(client.tables) then old(client.tables) - {tableName}
          else old(client.tables)
      ensures (tableFault || tableName !in old(client.tables)) ==> client.tables == old(client.tables)
    {
      var d := client.DeleteTable(tableName, tableFault);
      if d.Fail? {
        return Fail(Fault);
      }
      d := client.DeleteTable(lockTableName, lockTableFault);
      if d.Fail? {
        return Fail(Fault);
      }
      return Pass;
    }

    /** Inserts `{id, dirty: true}` unless a record for `id` exists. */
    method Add(id: string, fault: bool) returns (r: Outcome)
      modifies client
      ensures r.Pass? <==> !fault && tableName in old(client.tables) && id !in old(Ledger())
      ensures r == Fail(MigrationAlreadyExists) <==> !fault && tableName in old(client.tables) && id in old(Ledger())
      ensures r.Fail? ==> r.error == MigrationAlreadyExists || r.error == Fault
      ensures client.tables ==
        if r.Pass? then old(client.tables)[tableName := old(Ledger())[id := true]] else old(client.tables)
    {
      var w := client.WriteItem(tableName, id, true, IfAbsent, fault);
      match w
      case ConditionFailed =>
        return Fail(MigrationAlreadyExists);
      case Faulted =>
        return Fail(Fault);
      case Written =>
        return Pass;
    }

    /** Deletes the record for `id`, which must exist. */
    method Remove(id: string, fault: bool) returns (r: Outcome)
      modifies client
      ensures r.Pass? <==> !fault && tableName in old(client.tables) && id in old(Ledger())
      ensures r == Fail(MigrationNotFound) <==> !fault && tableName in old(client.tables) && id !in old(Ledger())
      ensures r.Fail? ==> r.error == MigrationNotFound || r.error == Fault
      ensures client.tables ==
        if r.Pass? then old(client.tables)[tableName := old(Ledger()) - {id}] else old(client.tables)
    {
      var w := client.DeleteItem(tableName, id, IfPresent, fault);
      match w
      case ConditionFailed =>
        return Fail(MigrationNotFound);
      case Faulted =>
        return Fail(Fault);
      case Written =>
        return Pass;
    }

    /** Marks the record for `id` finished (`dirty = false`); never creates one. */
    method FinishMigration(id: string, fault: bool) returns (r: Outcome)
      modifies client
      ensures r.Pass? <==> !fault && tableName in old(client.tables) && id in old(Ledger())
      ensures r == Fail(MigrationNotFound) <==> !fault && tableName in old(client.tables) && id !in old(Ledger())
      ensures r.Fail? ==> r.error == MigrationNotFound || r.error == Fault
      ensures client.tables ==
        if r.Pass? then old(client.tables)[tableName := old(Ledger())[id := false]] else old(client.tables)
    {
      var w := client.WriteItem(tableName, id, false, IfPresent, fault);
      match w
      case ConditionFailed =>
        return Fail(MigrationNotFound);
      case Faulted =>
        return Fail(Fault);
      case Written =>
        return Pass;
    }

    /** Marks the record for `id` started (`dirty = true`); never creates one. */
    method StartMigration(id: string, fault: bool) returns (r: Outcome)
      modifies client
      ensures r.Pass? <==> !fault && tableName in old(client.tables) && id in old(Ledger())
      ensures r == Fail(MigrationNotFound) <==> !fault && tableName in old(client.tables) && id !in old(Ledger())
      ensures r.Fail? ==> r.error == MigrationNotFound || r.error == Fault
      ensures client.tables ==
        if r.Pass? then old(client.tables)[tableName := old(Ledger())[id := true]] else old(client.tables)
    {
      var w := client.WriteItem(tableName, id, true, IfPresent, fault);
      match w
      case ConditionFailed =>
        return Fail(MigrationNotFound);
      case Faulted =>
        return Fail(Fault);
      case Written =>
        return Pass;
    }

    /** Polls for the lock: attempt `i` inserts the lock key unless present,
        and fails for a reason of its own exactly when `faults[i]`. A taken
        lock means retry (the one-second sleep is not modelled); any fault
        ends the loop. */
    method Lock(faults: seq<bool>) returns (r: Acquisition)
      modifies client
      ensures r.Acquired? <==>
        |faults| > 0 && !faults[0] && lockTableName in old(client.tables) && lockID !in old(LockTable())
      ensures r.Acquired? ==>
        && fresh(r.unlocker)
        && r.unlocker.client == client
        && r.unlocker.lockTableName == lockTableName
        && r.unlocker.lockID == lockID
        && client.tables == old(client.tables)[lockTableName := Acquire(old(LockTable()), lockID)]
      ensures r.Aborted? ==> r.error == Fault
      ensures r.Polling? <==>
        |faults| == 0 ||
        (lockTableName in old(client.tables) && lockID in old(LockTable()) &&
         forall i :: 0 <= i < |faults| ==> !faults[i])
      ensures !r.Acquired? ==> client.tables == old(client.tables)
    {
      var i := 0;
      while i < |faults|
        invariant 0 <= i <= |faults|
        invariant client.tables == old(client.tables)
        invariant i > 0 ==> lockTableName in client.tables && lockID in LockTable()
        invariant forall k :: 0 <= k < i ==> !faults[k]
      {
        var w := client.WriteItem(lockTableName, lockID, false, IfAbsent, faults[i]);
        match w
        case ConditionFailed =>
          i := i + 1;
        case Faulted =>
          return Aborted(Fault);
        case Written =>
          var u := new Unlocker(client, lockTableName, lockID);
          return Acquired(u);
      }
      return Polling;
    }
  }
}
