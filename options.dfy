/** The target's configuration: the names of its two tables and the key of
    its lock item, resolved once when the target is built.

    In the source an `Option` is a closure that assigns one field of the
    configuration it is handed by reference. The package's configuration type is
    unexported, so the three `With*` constructors are the only options a
    caller can make; each is represented here by the field it assigns and
    the value it assigns there. */
module Options {

  datatype Opts = Opts(lockID: string, lockTableName: string, tableName: string)

  /** The three configurable fields. */
  datatype Field = LockKey | LockTable | MigrationsTable

  function Get(o: Opts, f: Field): string {
    match f
    case LockKey => o.lockID
    case LockTable => o.lockTableName
    case MigrationsTable => o.tableName
  }

  /** The defaults, which keep the ledger and the lock in two different tables. */
  function DefaultOpts(): (o: Opts)
    ensures o.tableName != o.lockTableName
  {
    Opts(lockID := "migrations", tableName := "_migrations", lockTableName := "_migrations-lock")
  }

  datatype Option = Option(field: Field, value: string)

  /** Runs an option on a configuration: assigns its one field. */
  function Apply(opt: Option, o: Opts): (r: Opts)
    ensures Get(r, opt.field) == opt.value
    ensures forall f :: f != opt.field ==> Get(r, f) == Get(o, f)
  {
    match opt.field
    case LockKey => o.(lockID := opt.value)
    case LockTable => o.(lockTableName := opt.value)
    case MigrationsTable => o.(tableName := opt.value)
  }

  /** WithLockID sets the lock key and nothing else. */
  function WithLockID(lockID: string): (opt: Option)
    ensures forall o :: Apply(opt, o) == o.(lockID := lockID)
  {
    Option(LockKey, lockID)
  }

  /** WithLockTableName sets the lock table's name and nothing else. */
  function WithLockTableName(lockTableName: string): (opt: Option)
    ensures forall o :: Apply(opt, o) == o.(lockTableName := lockTableName)
  {
    Option(LockTable, lockTableName)
  }

  /** WithTableName sets the migrations table's name and nothing else. */
  function WithTableName(tableName: string): (opt: Option)
    ensures forall o :: Apply(opt, o) == o.(tableName := tableName)
  {
    Option(MigrationsTable, tableName)
  }

  /** The configuration after running `opts` on `o`, first to last. */
  function ApplyAll(o: Opts, opts: seq<Option>): Opts
    decreases |opts|
  {
    if |opts| == 0 then o else Apply(opts[|opts| - 1], ApplyAll(o, opts[..|opts| - 1]))
  }

  /** For each field the last option that names it wins. */
  lemma {:induction false} LastOptionWins(o: Opts, opts: seq<Option>, i: nat)
    requires i < |opts|
    requires forall j :: i < j < |opts| ==> opts[j].field != opts[i].field
    ensures Get(ApplyAll(o, opts), opts[i].field) == opts[i].value
    decreases |opts|
  {
    var n := |opts| - 1;
    if i < n {
      var init := opts[..n];
      assert init[i] == opts[i];
      LastOptionWins(o, init, i);
    }
  }

  /** A field that no option names keeps its value. */
  lemma {:induction false} UnnamedFieldUnchanged(o: Opts, opts: seq<Option>, f: Field)
    requires forall j :: 0 <= j < |opts| ==> opts[j].field != f
    ensures Get(ApplyAll(o, opts), f) == Get(o, f)
    decreases |opts|
  {
    if |opts| > 0 {
      var init := opts[..|opts| - 1];
      assert forall j :: 0 <= j < |init| ==> init[j] == opts[j];
      UnnamedFieldUnchanged(o, init, f);
    }
  }

  /** Options that assign different fields can be given in either order. */
  lemma OptionsCommute(a: Option, b: Option, o: Opts)
    requires a.field != b.field
    ensures Apply(a, Apply(b, o)) == Apply(b, Apply(a, o))
  {
  }

  /** Of two options for the same field only the later one matters. */
  lemma LaterOptionOverrides(earlier: Option, later: Option, o: Opts)
    requires earlier.field == later.field
    ensures Apply(later, Apply(earlier, o)) == Apply(later, o)
  {
  }
}
