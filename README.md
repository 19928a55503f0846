# DynamoDB migration target, modelled in Dafny

This project models the core of a Go package that gives a schema-migration
runner two things on top of DynamoDB:

- a **migration ledger**: one record per migration id with a `dirty` flag, written by a two-phase protocol (`Add`/`StartMigration` mark a migration dirty, `FinishMigration` marks it clean);
- an **advisory lock**: a single well-known key in a lock table, taken by a conditional insert and released by an unconditional delete.

Both are built on single-item conditional writes. The model states what each
operation does to the store and what it returns, and proves it.

Files and modules:

- `errors.dfy` (`Errors`): the error kinds (`NoCurrentMigration`, `DirtyMigration`, `MigrationAlreadyExists`, `MigrationNotFound`, and an opaque `Fault`) and the result types.
- `order.dfy` (`StringOrder`): Go's byte-wise string order. It is defined as `Less`, proved to be a strict total order, and used to define sorted sequences. The file also proves that a strictly sorted sequence is determined by its set of elements.
- `sorting.dfy` (`Sorting`): the in-place sort that `Done` applies, on an `array<string>`.
- `store.dfy` (`Store`): the backend as a class `Backend` with one field, `tables: map<string, Table>`. It maps each existing table to its items (primary key ↦ `dirty`). The primitives are `ListTables`, `CreateTable`, `DeleteTable`, `Scan`, `WriteItem` (PutItem / UpdateItem) and `DeleteItem`. Writes carry a `Condition` (`attribute_not_exists(id)`, `attribute_exists(id)` or none), and a failed condition is reported as `ConditionFailed`.
- `options.dfy` (`Options`): the configuration, its defaults, the `With*` options and the left-to-right application that `NewTarget` performs.
- `lock.dfy` (`LockProtocol`): the lock-table transitions `Acquire` and `Release`, plus a model of several runners interleaving lock attempts and unlocks, with the mutual-exclusion theorem.
- `unlocker.dfy` (`Unlocking`): the release handle, a class `Unlocker`.
- `target.dfy` (`DynamoTarget`): the class `Target` with `NewTarget` (its constructor), `Done`, `Current`, `Create`, `Destroy`, `Add`, `Remove`, `FinishMigration`, `StartMigration` and `Lock`.
- `scenarios.dfy` (`Scenarios`): the package's integration tests, restated as verified client methods. Each one works on a fresh account, and its `ensures` clause is what the test expects. Three of them have no counterpart in the tests and come from the documented behaviour of the code instead: `CurrentOfEmpty` (the doc comment and empty-ledger branch of `Current`), `CreateStopsAtFailure` and `DestroyStopsAfterFirstDrop` (the early returns of `Create` and `Destroy`).

Modelling choices:

- **Faults are parameters.** Each backend call takes a `fault: bool`, which is the environment's choice of whether the call fails for a reason outside the model (network, throttling, permissions, a response that does not decode). A faulted call changes nothing. `Target` methods take one such flag per backend call they make. `Lock` takes one flag per loop iteration.
- **Missing tables.** An item operation or scan on a table that does not exist is a `Fault` (DynamoDB's ResourceNotFoundException). `CreateTable` on an existing name is a `Fault` (ResourceInUseException). Deleting a table drops its items.
- **Item attributes.** Items carry only the `dirty` attribute. The lock item has none in the source. The model records it as `false`, which is what the migrations-table scan would decode for an item without the attribute. A Go `PutItem` and an `UpdateItem` that sets `dirty` therefore have the same effect on an item, and both are the one primitive `WriteItem`.
- **Options.** Go's options are closures over an unexported struct, so `WithLockID`, `WithLockTableName` and `WithTableName` are the only options a caller can build that do something (a nil `Option` is listed under "## Left out"). Each becomes the data `Option(field, value)`, and `Apply` runs it.
- **Character order.** Dafny characters are Unicode scalar values. UTF-8 keeps their order, so comparing characters gives the same result as Go's comparison of UTF-8 bytes.
- **`Lock` attempts.** `Lock` runs at most one attempt per entry of its `faults` argument. It returns `Polling` when every attempt found the lock held: the source would still be sleeping and retrying at that point.

## Model

| member | source | states |
|---|---|---|
| `StringOrder.Less` | target.go:177 | the comparison `sort.StringSlice` uses: the first differing character decides, and a proper prefix sorts first |
| `StringOrder.LessIrreflexive` | target.go:177 | no id sorts before itself under Go's string order |
| `StringOrder.LessTransitive` | target.go:177 | the order used by `sort.StringSlice` is transitive |
| `StringOrder.LessTotal` | target.go:177 | any two different ids are ordered one way or the other |
| `StringOrder.LessAsymmetric` | target.go:177 | two ids never sort before each other |
| `StringOrder.LessEqTransitive` | target.go:177 | the non-strict order is transitive |
| `StringOrder.NotLessIsLessEq` | target.go:177 | "not before" is the same as "after or equal", which is what the sort's comparison decides |
| `StringOrder.LessIsStrictTotalOrder` | target.go:177 | the string order is a strict total order (irreflexive, asymmetric, transitive, total) |
| `StringOrder.AdjacentSortedIsSorted` | target.go:177 | a sequence whose neighbours are in order is sorted pairwise |
| `StringOrder.SortedDistinctIsStrictlySorted` | target.go:164-177 | sorted ids without duplicates are strictly ascending |
| `StringOrder.StrictlySortedUnique` | target.go:164-177 | two strictly ascending lists with the same elements are equal, so `Done`'s answer does not depend on the scan order |
| `StringOrder.LastIsGreatest` | target.go:64 | the last element of a strictly sorted list is its greatest |
| `StringOrder.PermutationKeepsDistinct` | target.go:177 | reordering ids that have no duplicates keeps them duplicate-free |
| `Sorting.SortInPlace` | target.go:177 | sorts the array in place into ascending order, and the result is a permutation of the input |
| `Store.Backend.constructor` | target.go:18-27 | the account starts with exactly the given tables and items |
| `Store.Backend.ListTables` | target.go:69-72 | lists every existing table once, or fails on a fault |
| `Store.Backend.CreateTable` | target.go:80-101 | adds an empty table unless the name is taken or the call faults, otherwise changes nothing |
| `Store.Backend.DeleteTable` | target.go:134-139 | drops an existing table and its items, or fails and changes nothing |
| `Store.Backend.Scan` | target.go:156-161 | returns each item of an existing table exactly once, with its dirty flag |
| `Store.Holds` | target.go:188-209 | `attribute_not_exists(id)` holds exactly when the key is absent, `attribute_exists(id)` exactly when it is present, and no condition always holds |
| `Store.Backend.WriteItem` | target.go:182-190 | writes the key only when its condition holds; a failed condition or a fault changes nothing; no other item or table is touched |
| `Store.Backend.DeleteItem` | target.go:204-211 | deletes the key only when its condition holds; an unconditional delete of an absent key succeeds; nothing else changes |
| `Options.DefaultOpts` | options.go:9-15 | the defaults keep the ledger and the lock in different tables |
| `Options.Apply` | options.go:17-38 | an option assigns its own field and leaves the other two unchanged |
| `Options.WithLockID` | options.go:20-24 | the option sets `lockID` and nothing else, for every configuration |
| `Options.WithLockTableName` | options.go:27-31 | the option sets `lockTableName` and nothing else, for every configuration |
| `Options.WithTableName` | options.go:34-38 | the option sets `tableName` and nothing else, for every configuration |
| `Options.ApplyAll` | target.go:37-41 | the configuration after running the options on the defaults, first to last, as the loop in `NewTarget` does |
| `Options.LastOptionWins` | target.go:37-41 | when options are applied left to right, a field ends with the value of the last option naming it |
| `Options.UnnamedFieldUnchanged` | target.go:37-41 | a field that no option names keeps its default |
| `Options.OptionsCommute` | options.go:20-38 | options for different fields commute |
| `Options.LaterOptionOverrides` | options.go:20-38 | of two options for the same field only the later one matters |
| `LockProtocol.Acquire` | target.go:272-287 | a successful lock attempt puts the lock key in the lock table and changes no other item |
| `LockProtocol.Release` | unlocker.go:23-30 | unlocking removes the lock key and removes or changes no other item |
| `LockProtocol.Step` | target.go:272-287 | after an attempt the lock is held, and the runner holds it exactly when it already did or the lock was free; after an unlock the lock is free and that runner holds nothing; other runners are unaffected |
| `LockProtocol.ReleaseUndoesAcquire` | unlocker.go:22-30 | a successful lock followed by its unlock returns the lock table to its earlier state |
| `LockProtocol.ReleaseIdempotent` | unlocker.go:23-30 | unlocking twice leaves the same lock table as unlocking once |
| `LockProtocol.StepKeepsExclusion` | target.go:270-295 | one attempt, or one unlock by the holder, keeps at most one holder, and the key is present exactly when someone holds the lock |
| `LockProtocol.MutualExclusion` | target.go:270-295 | under every interleaving of attempts and once-used unlockers the lock never has two holders |
| `LockProtocol.ContendedAttemptWaits` | target.go:281-283 | an attempt on a held lock changes nothing and raises no error |
| `LockProtocol.ReleaseAdmitsOne` | target.go:270-295 | after a release the first runner to try gets the lock, and the next attempt waits |
| `LockProtocol.StaleUnlockBreaksExclusion` | unlocker.go:23-30 | the delete in `Unlock` has no ownership check, so reusing an unlocker hands the lock to two runners |
| `Unlocking.Unlocker.constructor` | target.go:290-294 | the handle is bound to the target's client, lock table and lock key |
| `Unlocking.Unlocker.Unlock` | unlocker.go:22-39 | deletes the lock key whether or not it is present, and changes no other item or table; the ErrMigrationAlreadyExists branch is never taken; a fault or missing table fails and changes nothing |
| `DynamoTarget.Target.constructor` | target.go:37-49 | the target's names are the defaults with the options applied left to right |
| `DynamoTarget.HasDirty` | target.go:170 | the ledger holds a record whose `dirty` flag is set, the test `Done` makes of each record |
| `DynamoTarget.Target.Done` | target.go:151-179 | fails with DirtyMigration exactly when some record in the scanned table is dirty, and then returns no list; since the scan is modelled as returning the whole table, a ledger larger than one Scan page is not covered (see "## Left out"); otherwise returns exactly the ledger's ids, strictly ascending; store faults are reported as Fault; the store is unchanged |
| `DynamoTarget.Target.Current` | target.go:51-65 | returns the greatest finished id, which is a ledger id; gives NoCurrentMigration on an empty ledger; passes on Done's DirtyMigration and Fault |
| `DynamoTarget.Target.Create` | target.go:67-130 | only unlisted tables are created, empty; existing tables keep their items; on success both configured tables exist and no other table was added; the exact account on every failure: nothing created on a list fault or a failed first create, only the migrations table when the lock-table create fails |
| `DynamoTarget.Target.Destroy` | target.go:132-149 | on success both tables are gone; if dropping the migrations table fails, nothing changes; if dropping the lock table fails, the migrations table is already gone and is not restored |
| `DynamoTarget.Target.Add` | target.go:181-200 | inserts exactly `id ↦ dirty` when `id` is absent; returns MigrationAlreadyExists and changes nothing when `id` is present |
| `DynamoTarget.Target.Remove` | target.go:202-220 | deletes only `id`'s record when present; returns MigrationNotFound and changes nothing when absent |
| `DynamoTarget.Target.FinishMigration` | target.go:222-244 | sets only `id`'s flag to clean; never creates a record; returns MigrationNotFound when `id` is absent |
| `DynamoTarget.Target.StartMigration` | target.go:246-268 | sets only `id`'s flag to dirty; never creates a record; returns MigrationNotFound when `id` is absent |
| `DynamoTarget.Target.Lock` | target.go:270-295 | takes the lock when the key is absent, and returns an unlocker bound to the lock table and key; contention only retries and never errors; any other fault aborts the loop and changes nothing |
| `Scenarios.CreateFromAnyStart` | target_test.go:33-114 | whichever default tables already exist, Create succeeds and leaves exactly the two default tables |
| `Scenarios.CreateTwice` | target_test.go:116-121 | Create twice in a row: both calls succeed and the second changes nothing |
| `Scenarios.DestroyAfterCreate` | target_test.go:124-135 | Create then Destroy leaves no table |
| `Scenarios.CreateStopsAtFailure` | target.go:80-125 | a failed migrations-table create leaves an empty account with no lock table; a failed lock-table create keeps the migrations table |
| `Scenarios.DestroyStopsAfterFirstDrop` | target.go:134-146 | a failed lock-table drop leaves only the lock table: the migrations table is dropped first and not restored |
| `Scenarios.AddTwice` | target_test.go:143-161 | a second Add of "1" gives MigrationAlreadyExists, and the ledger still holds one dirty record for "1" |
| `Scenarios.RemoveCases` | target_test.go:169-183 | Remove on an empty ledger gives MigrationNotFound; Remove after Add empties the ledger |
| `Scenarios.FinishCases` | target_test.go:191-209 | Finish needs a record; Add then Finish leaves "1" clean |
| `Scenarios.StartCases` | target_test.go:217-235 | Start needs a record; Add, Finish, Start leaves "1" dirty |
| `Scenarios.DoneListsFinished` | target_test.go:244-255 | after adding and finishing "1" and "2", Done returns ["1", "2"] |
| `Scenarios.DirtyBlocksDoneAndCurrent` | target_test.go:257-296 | if "2" is left dirty, both Done and Current fail with DirtyMigration |
| `Scenarios.CurrentOfEmpty` | target.go:51-62 | Current on an empty, provisioned ledger fails with NoCurrentMigration |
| `Scenarios.CurrentIsGreatest` | target_test.go:274-286 | after finishing "2" and then "1", Current is "2" |
| `Scenarios.LockUnlock` | target_test.go:300-332 | Lock succeeds on a free lock; a second Lock only polls while the lock is held; Unlock twice succeeds both times and restores the lock table |

## Left out

- The AWS request and response shapes (attribute-value maps, condition-expression strings, key schema, provisioned throughput) are not modelled. They are replaced by the conditions and table operations of `Store.Backend`.
- The reflective decoding of scanned items into the package's record type is not modelled, and that record type is not part of this model. Every scanned item decodes to its `(id, dirty)` pair. A decode failure in the source is a fault, and the `fault` argument of `Scan` covers it.
- The pagination of `Scan` and `ListTables` is not modelled. Each call returns everything. The source reads only the first page of either response and ignores `LastEvaluatedKey`, so on a ledger larger than one Scan page `Done` returns a partial list and misses dirty records on later pages; `Create` likewise sees only the first page of table names. The model's `Done` and `Create` describe accounts that fit in one page.
- Error-message wrapping (`fmt.Errorf` text) is not modelled. All backend errors are the single kind `Fault`.
- Contexts, cancellation, `context.WithoutCancel` and the one-second `time.Sleep` between lock attempts are not modelled. `Lock` takes a finite list of per-attempt faults in place of unbounded polling.
- DynamoTarget.Target.Lock: between two attempts of one call no other runner runs, so once the lock is held every later attempt of the same call also finds it held. Interleaving between runners is modelled separately, by `LockProtocol.Step`, on the lock table alone.
- The concurrent goroutine test with its shared counter is not modelled as threads. Its claim, at most one holder at any instant, is `LockProtocol.MutualExclusion`.
- A nil `Option` passed to `NewTarget` is not modelled: the Go `Option` type is an exported function type, so a nil value compiles and `NewTarget` panics when it calls it. Every modelled `Option` is one of the three `With*` options.
- The client interfaces (`DynamoDBClient`, `UnlockDynamoDBClient`) are represented by the one class `Store.Backend`. The AWS client setup in the test suite is not modelled.
- If the two configured table names coincide, the model follows the source: `Create` lists once, so it tries to create the same table a second time and fails, and `Destroy` fails on the second delete. Items of the two roles then share one table.
