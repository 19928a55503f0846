/** The release handle `Lock` returns: bound to one lock table and one lock
    key, it deletes that key without any condition. */
module Unlocking {
  import opened Errors
  import opened Store
  import opened LockProtocol

  class Unlocker {
    const client: Backend
    const lockTableName: string
    const lockID: string

    constructor (client: Backend, lockTableName: string, lockID: string)
      ensures this.client == client && this.lockTableName == lockTableName && this.lockID == lockID
    {
      this.client := client;
      this.lockTableName := lockTableName;
      this.lockID := lockID;
    }

    /** Frees the lock: deletes the lock key, whether or not it is present.
        The delete carries no condition, so the mapping of a failed
        condition to MigrationAlreadyExists is never taken. A missing lock
        table and any other backend failure are a fault. */
    method Unlock(fault: bool) returns (r: Outcome)
      modifies client
      ensures r.Pass? <==> !fault && lockTableName in old(client.tables)
      ensures r.Fail? ==> r.error == Fault
      ensures r.Pass? ==> lockTableName in client.tables && lockID !in client.tables[lockTableName]
      ensures client.tables ==
        if r.Pass? then old(client.tables)[lockTableName := Release(old(client.tables[lockTableName]), lockID)]
        else old(client.tables)
    {
      var w := client.DeleteItem(lockTableName, lockID, Unconditional, fault);
      match w
      case ConditionFailed =>
        r := Fail(MigrationAlreadyExists);
      case Faulted =>
        r := Fail(Fault);
      case Written =>
        r := Pass;
    }
  }
}
