/** The DynamoDB account a target talks to, reduced to what the target
    uses: which tables exist and, for each, its items by primary key.
    An item's only modelled attribute is the ledger's `dirty` flag; an item
    written without one (the lock item) is recorded as `false`, the value a
    scan of the migrations table would decode for it.

    Every call takes `fault`: the environment's choice of whether the call
    fails for a reason outside the model (network, throttling, permissions,
    a response that does not decode). A faulted call changes nothing. */
module Store {
  import opened Errors
  import opened StringOrder

  /** Items of one table: primary key `id` to the `dirty` attribute. */
  type Table = map<string, bool>

  /** The precondition a write carries, as a `ConditionExpression`. */
  datatype Condition =
    | Unconditional  // no ConditionExpression
    | IfAbsent       // attribute_not_exists(id)
    | IfPresent      // attribute_exists(id)

  /** Outcome of a conditional item write, as the client reports it. */
  datatype WriteResult =
    | Written
    | ConditionFailed   // ConditionalCheckFailedException
    | Faulted           // any other error

  predicate Holds(cond: Condition, items: Table, key: string) {
    match cond
    case Unconditional => true
    case IfAbsent => key !in items
    case IfPresent => key in items
  }

  /** `items` holds every item of `t` exactly once. */
  predicate Lists(items: seq<(string, bool)>, t: Table) {
    && (forall i, j :: 0 <= i < j < |items| ==> items[i].0 != items[j].0)
    && (forall i :: 0 <= i < |items| ==> items[i].0 in t && t[items[i].0] == items[i].1)
    && (forall k :: k in t ==> (k, t[k]) in items)
  }

  class Backend {
    var tables: map<string, Table>

    constructor (tables: map<string, Table>)
      ensures this.tables == tables
    {
      this.tables := tables;
    }

    /** ListTables: the names of the existing tables, in no particular order. */
    method ListTables(fault: bool) returns (r: Result<seq<string>>)
      ensures r.Failure? <==> fault
      ensures r.Failure? ==> r.error == Fault
      ensures r.Success? ==> Distinct(r.value) && forall n :: n in r.value <==> n in tables
    {
      if fault {
        return Failure(Fault);
      }
      var names: seq<string> := [];
      var rest := tables.Keys;
      while rest != {}
        invariant rest <= tables.Keys
        invariant Distinct(names)
        invariant forall n :: n in names <==> n in tables && n !in rest
        decreases rest
      {
        var n :| n in rest;
        names := names + [n];
        rest := rest - {n};
      }
      return Success(names);
    }

    /** CreateTable: fails if the name is taken (ResourceInUseException). */
    method CreateTable(name: string, fault: bool) returns (r: Outcome)
      modifies this
      ensures r.Pass? <==> !fault && name !in old(tables)
      ensures r.Fail? ==> r.error == Fault
      ensures tables == if r.Pass? then old(tables)[name := map[]] else old(tables)
    {
      if fault || name in tables {
        return Fail(Fault);
      }
      tables := tables[name := map[]];
      return Pass;
    }

    /** DeleteTable: drops the table with all its items; fails if there is
        no such table (ResourceNotFoundException). */
    method DeleteTable(name: string, fault: bool) returns (r: Outcome)
      modifies this
      ensures r.Pass? <==> !fault && name in old(tables)
      ensures r.Fail? ==> r.error == Fault
      ensures tables == if r.Pass? then old(tables) - {name} else old(tables)
    {
      if fault || name !in tables {
        return Fail(Fault);
      }
      tables := tables - {name};
      return Pass;
    }

    /** Scan: every item of the table, each once, in no particular order. */
    method Scan(table: string, fault: bool) returns (r: Result<seq<(string, bool)>>)
      ensures r.Failure? <==> fault || table !in tables
      ensures r.Failure? ==> r.error == Fault
      ensures r.Success? ==> table in tables && Lists(r.value, tables[table])
    {
      if fault || table !in tables {
        return Failure(Fault);
      }
      var t := tables[table];
      var items: seq<(string, bool)> := [];
      var rest := t.Keys;
      while rest != {}
        invariant rest <= t.Keys
        invariant forall i, j :: 0 <= i < j < |items| ==> items[i].0 != items[j].0
        invariant forall i :: 0 <= i < |items| ==> items[i].0 in t && items[i].0 !in rest && t[items[i].0] == items[i].1
        invariant forall k :: k in t && k !in rest ==> (k, t[k]) in items
        decreases rest
      {
        var k :| k in rest;
        items := items + [(k, t[k])];
        rest := rest - {k};
      }
      return Success(items);
    }

    /** PutItem and UpdateItem (`SET dirty = :dirty`): with one attribute per
        item both leave `key` holding `dirty` when the condition holds. A
        missing table is a fault (ResourceNotFoundException). */
    method WriteItem(table: string, key: string, dirty: bool, cond: Condition, fault: bool)
      returns (r: WriteResult)
      modifies this
      ensures r == Faulted <==> fault || table !in old(tables)
      ensures r == ConditionFailed <==> !fault && table in old(tables) && !Holds(cond, old(tables[table]), key)
      ensures tables == if r == Written then old(tables)[table := old(tables[table])[key := dirty]] else old(tables)
    {
      if fault || table !in tables {
        return Faulted;
      }
      if !Holds(cond, tables[table], key) {
        return ConditionFailed;
      }
      tables := tables[table := tables[table][key := dirty]];
      return Written;
    }

    /** DeleteItem: removes `key` when the condition holds; deleting an
        absent key unconditionally succeeds and changes nothing. */
    method DeleteItem(table: string, key: string, cond: Condition, fault: bool)
      returns (r: WriteResult)
      modifies this
      ensures r == Faulted <==> fault || table !in old(tables)
      ensures r == ConditionFailed <==> !fault && table in old(tables) && !Holds(cond, old(tables[table]), key)
      ensures tables == if r == Written then old(tables)[table := old(tables[table]) - {key}] else old(tables)
    {
      if fault || table !in tables {
        return Faulted;
      }
      if !Holds(cond, tables[table], key) {
        return ConditionFailed;
      }
      tables := tables[table := tables[table] - {key}];
      return Written;
    }
  }
}
