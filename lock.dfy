/** The advisory lock as a state machine over the lock table. The lock is
    held exactly when the lock table holds the lock key; an attempt is a
    conditional insert of the key, a release an unconditional delete.
    `Acquire` and `Release` are the table changes the target's `Lock` and
    the unlocker's `Unlock` make; `Step` runs them for several runners
    sharing one table, the way concurrent processes interleave their
    single-item writes. */
module LockProtocol {
  import opened Store

  /** The lock table after a successful attempt to take `key`: the key is
      present and every other item is as it was. */
  function Acquire(lockTable: Table, key: string): (r: Table)
    ensures key in r
    ensures r - {key} == lockTable - {key}
  {
    lockTable[key := false]
  }

  /** The lock table after `key` is deleted: the key is absent, and no other
      item is removed or changed. */
  function Release(lockTable: Table, key: string): (r: Table)
    ensures key !in r
    ensures r.Keys <= lockTable.Keys
    ensures forall k :: k in lockTable && k != key ==> k in r && r[k] == lockTable[k]
  {
    lockTable - {key}
  }

  /** Taking a free lock and releasing it leaves the lock table as it was. */
  lemma ReleaseUndoesAcquire(lockTable: Table, key: string)
    requires key !in lockTable
    ensures Release(Acquire(lockTable, key), key) == lockTable
  {
    assert Release(Acquire(lockTable, key), key).Keys == lockTable.Keys;
  }

  /** Releasing twice is the same as releasing once. */
  lemma ReleaseIdempotent(lockTable: Table, key: string)
    ensures Release(Release(lockTable, key), key) == Release(lockTable, key)
  {
  }

  /** Runners are told apart by a number. */
  type Runner = nat

  /** The shared lock table and, as ghost bookkeeping, the runners that hold
      an unlocker they have not yet used. */
  datatype System = System(lockTable: Table, holders: set<Runner>)

  datatype Event =
    | Attempt(runner: Runner)   // one iteration of a runner's Lock loop
    | Unlock(runner: Runner)    // a runner calls Unlock on its unlocker

  /** One event. After an attempt the lock is held, and the runner holds it
      exactly when it already did or the lock was free; after an unlock the
      lock is free and the runner no longer holds it. Other runners keep
      their standing. */
  function Step(key: string, s: System, e: Event): (r: System)
    ensures e.Attempt? ==> key in r.lockTable
    ensures e.Attempt? ==> (e.runner in r.holders <==> e.runner in s.holders || key !in s.lockTable)
    ensures e.Unlock? ==> key !in r.lockTable && e.runner !in r.holders
    ensures forall q :: q != e.runner ==> (q in r.holders <==> q in s.holders)
  {
    match e
    case Attempt(p) =>
      if key in s.lockTable then s  // contended: the runner waits and retries
      else System(Acquire(s.lockTable, key), s.holders + {p})
    case Unlock(p) =>
      System(Release(s.lockTable, key), s.holders - {p})
  }

  function Run(key: string, s: System, trace: seq<Event>): System
    decreases |trace|
  {
    if |trace| == 0 then s else Run(key, Step(key, s, trace[0]), trace[1..])
  }

  /** At most one holder, and the key is present exactly when someone holds it. */
  predicate Exclusive(key: string, s: System) {
    && |s.holders| <= 1
    && (key in s.lockTable <==> s.holders != {})
  }

  /** Every unlock in the trace is made by a runner that holds the lock at
      that moment: each unlocker is used once, by its owner. */
  predicate HandlesUsedOnce(key: string, s: System, trace: seq<Event>)
    decreases |trace|
  {
    |trace| == 0 ||
    ((trace[0].Unlock? ==> trace[0].runner in s.holders) &&
     HandlesUsedOnce(key, Step(key, s, trace[0]), trace[1..]))
  }

  lemma SoleHolder(holders: set<Runner>, p: Runner)
    requires |holders| <= 1 && p in holders
    ensures holders == {p}
  {
    assert |holders - {p}| == |holders| - 1;
  }

  /** One step keeps mutual exclusion, provided an unlock comes from the holder. */
  lemma StepKeepsExclusion(key: string, s: System, e: Event)
    requires Exclusive(key, s)
    requires e.Unlock? ==> e.runner in s.holders
    ensures Exclusive(key, Step(key, s, e))
  {
  }

  /** However the runners interleave, the lock never has two holders. */
  lemma {:induction false} MutualExclusion(key: string, s: System, trace: seq<Event>)
    requires Exclusive(key, s)
    requires HandlesUsedOnce(key, s, trace)
    ensures Exclusive(key, Run(key, s, trace))
    decreases |trace|
  {
    if |trace| > 0 {
      StepKeepsExclusion(key, s, trace[0]);
      MutualExclusion(key, Step(key, s, trace[0]), trace[1..]);
    }
  }

  /** Contention never fails an attempt: a held lock makes it a no-op. */
  lemma ContendedAttemptWaits(key: string, s: System, p: Runner)
    requires Exclusive(key, s) && s.holders != {} && p !in s.holders
    ensures Step(key, s, Attempt(p)) == s
    ensures p !in Step(key, s, Attempt(p)).holders
  {
  }

  /** After a release exactly one of the waiting runners gets the lock next:
      the first to attempt. */
  lemma ReleaseAdmitsOne(key: string, s: System, holder: Runner, p: Runner, q: Runner)
    requires Exclusive(key, s) && holder in s.holders
    ensures
      var freed := Step(key, s, Unlock(holder));
      var first := Step(key, freed, Attempt(p));
      && key !in freed.lockTable
      && first.holders == {p}
      && Step(key, first, Attempt(q)) == first
  {
    SoleHolder(s.holders, holder);
  }

  /** Why each unlocker must be used once: unlocking has no ownership check,
      so a runner that unlocks a second time deletes the lock another runner
      took in between, and a third runner then gets it too. */
  lemma StaleUnlockBreaksExclusion(key: string)
    ensures
      var trace := [Attempt(1), Unlock(1), Attempt(2), Unlock(1), Attempt(3)];
      Run(key, System(map[], {}), trace).holders == {2, 3}
  {
  }
}
