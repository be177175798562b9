// The exchange registry (mqserver/exchange.hpp): exchanges in memory, the durable
// ones also as rows of the catalog table `exchange_table`.
module Exchange {
  import opened Wrappers
  import opened Router
  import opened Args

  datatype Exchange = Exchange(name: string, kind: ExchangeType, durable: bool, autoDelete: bool, args: ArgMap)

  /** A row of `exchange_table` apart from its primary key, the name; the arguments
      are kept in their text form. */
  datatype ExchangeRow = ExchangeRow(kind: ExchangeType, durable: bool, autoDelete: bool, args: string)

  /** The argument map select_callback reads a stored text back as: set_args as
      written, which inserts every piece, the empty one after the trailing '&' too. */
  function ReadArgs(text: string): (r: ArgMap)
    ensures ArgsText(text) ==> "" in r
  {
    var r := InsertPieces(map[], Helper.Split(text, {'&'}));
    assert ArgsText(text) ==> "" in r by {
      if ArgsText(text) {
        ReadArgsTextHasEmptyKey(text);
      }
    }
    r
  }

  /** exchange_mapper::select_callback: one exchange from one row. */
  function FromRow(name: string, row: ExchangeRow): (e: Exchange)
    ensures e.name == name && e.kind == row.kind && e.durable == row.durable && e.autoDelete == row.autoDelete
    ensures e.args == ReadArgs(row.args)
  {
    Exchange(name, row.kind, row.durable, row.autoDelete, ReadArgs(row.args))
  }

  /** The row stands for the exchange: same fields, an argument text of the form
      get_args writes, and arguments that the text form can hold read back as written
      with the extra "" -> "". */
  ghost predicate RowOf(row: ExchangeRow, e: Exchange)
  {
    row.kind == e.kind && row.durable == e.durable && row.autoDelete == e.autoDelete &&
    ArgsText(row.args) && (Encodable(e.args) ==> ReadArgs(row.args) == WithEmptyPair(e.args))
  }

  /** The registry's invariant: every exchange sits under its own name, the table
      holds exactly the durable ones, and a dropped table is empty. */
  ghost predicate Consistent(exchanges: map<string, Exchange>, table: map<string, ExchangeRow>, tableExists: bool)
  {
    (forall n :: n in exchanges ==> exchanges[n].name == n) &&
    (forall n :: n in table <==> n in exchanges && exchanges[n].durable) &&
    (!tableExists ==> table == map[]) &&
    (forall n :: n in table ==> RowOf(table[n], exchanges[n]))
  }

  /** A table as the registry leaves it: every row durable, its arguments in the
      text form get_args writes. */
  ghost predicate WellFormedTable(table: map<string, ExchangeRow>)
  {
    forall n :: n in table ==> table[n].durable && ArgsText(table[n].args)
  }

  /** exchange_mapper::all: the exchanges recovered from the table. */
  function Recover(table: map<string, ExchangeRow>): (r: map<string, Exchange>)
    ensures r.Keys == table.Keys
  {
    map n | n in table :: FromRow(n, table[n])
  }

  /** Recovering a well-formed table gives a consistent registry. */
  lemma RecoverConsistent(table: map<string, ExchangeRow>)
    requires WellFormedTable(table)
    ensures Consistent(Recover(table), table, true)
  {
    forall n | n in table
      ensures RowOf(table[n], Recover(table)[n])
    {
      ReadArgsTextHasEmptyKey(table[n].args);
    }
  }

  /** What a restart recovers from a consistent registry's table: exactly its durable
      exchanges, each with its fields, and, when its arguments are encodable, with them
      and the extra "" -> "" of set_args. */
  lemma RecoverDurable(exchanges: map<string, Exchange>, table: map<string, ExchangeRow>)
    requires Consistent(exchanges, table, true)
    ensures forall n :: n in Recover(table) <==> n in exchanges && exchanges[n].durable
    ensures forall n :: n in Recover(table) && Encodable(exchanges[n].args) ==>
              Recover(table)[n] == exchanges[n].(args := WithEmptyPair(exchanges[n].args))
  {
    forall n | n in Recover(table) && Encodable(exchanges[n].args)
      ensures Recover(table)[n] == exchanges[n].(args := WithEmptyPair(exchanges[n].args))
    {
      assert RowOf(table[n], exchanges[n]);
    }
  }

  /** The row insert writes for e, its arguments in the text form get_args
      writes in some key order, stands for e. */
  lemma RowOfText(e: Exchange, order: seq<string>)
    requires IsKeyOrder(order, e.args)
    ensures RowOf(ExchangeRow(e.kind, e.durable, e.autoDelete, EncodeArgs(order, e.args)), e)
  {
    if Encodable(e.args) {
      ArgsRoundTripAsWritten(order, e.args);
    }
    EncodeArgsText(order, e.args);
  }

  /** Declaring a durable exchange under a new name, with a row that describes it,
      keeps the invariant. */
  lemma ConsistentAddDurable(exchanges: map<string, Exchange>, table: map<string, ExchangeRow>, tableExists: bool,
                             e: Exchange, row: ExchangeRow)
    requires Consistent(exchanges, table, tableExists) && e.name !in exchanges
    requires e.durable && tableExists && RowOf(row, e)
    ensures Consistent(exchanges[e.name := e], table[e.name := row], tableExists)
  {
    var m, t := exchanges[e.name := e], table[e.name := row];
    forall n | n in t
      ensures RowOf(t[n], m[n])
    {
      if n != e.name {
        assert t[n] == table[n] && m[n] == exchanges[n];
      }
    }
    forall n
      ensures n in t <==> n in m && m[n].durable
    {
      if n != e.name {
        assert n in m ==> m[n] == exchanges[n];
      }
    }
  }

  /** Declaring a transient exchange under a new name keeps the invariant. */
  lemma ConsistentAddTransient(exchanges: map<string, Exchange>, table: map<string, ExchangeRow>, tableExists: bool,
                               e: Exchange)
    requires Consistent(exchanges, table, tableExists) && e.name !in exchanges && !e.durable
    ensures Consistent(exchanges[e.name := e], table, tableExists)
  {
    var m := exchanges[e.name := e];
    forall n | n in table
      ensures RowOf(table[n], m[n])
    {
      assert m[n] == exchanges[n];
    }
    forall n
      ensures n in table <==> n in m && m[n].durable
    {
      if n != e.name {
        assert n in m ==> m[n] == exchanges[n];
      }
    }
  }

  /** exchange_mapper::all with its callback. */
  method LoadAll(table: map<string, ExchangeRow>) returns (exchanges: map<string, Exchange>)
    ensures exchanges == Recover(table)
  {
    exchanges := map[];
    var rest := table.Keys;
    while rest != {}
      invariant rest <= table.Keys
      invariant exchanges.Keys == table.Keys - rest
      invariant forall n :: n in exchanges ==> exchanges[n] == FromRow(n, table[n])
      decreases rest
    {
      var n :| n in rest;
      var row := table[n];
      var args := SetArgsAsWritten(map[], row.args);
      var x := Exchange(n, row.kind, row.durable, row.autoDelete, args);
      assert x == FromRow(n, row);
      exchanges := exchanges[n := x];
      rest := rest - {n};
    }
    RecoverAll(table, exchanges);
  }

  /** A registry holding, for every row, the exchange that row stands for is the
      recovered one. */
  lemma RecoverAll(table: map<string, ExchangeRow>, exchanges: map<string, Exchange>)
    requires exchanges.Keys == table.Keys
    requires forall n :: n in exchanges ==> exchanges[n] == FromRow(n, table[n])
    ensures exchanges == Recover(table)
  {
  }

  class ExchangeManager {
    var exchanges: map<string, Exchange>
    /** The rows of `exchange_table`, by primary key. */
    var table: map<string, ExchangeRow>
    /** False once clear_exchange has dropped the table: inserts fail until restart. */
    var tableExists: bool

    ghost predicate Valid()
      reads this
    {
      Consistent(exchanges, table, tableExists)
    }

    /** exchange_manager's constructor: the table is created if missing, then read
        back with exchange_mapper::all. */
    constructor (stored: map<string, ExchangeRow>)
      ensures exchanges == Recover(stored) && table == stored && tableExists
      ensures WellFormedTable(stored) ==> Valid()
    {
      var recovered := LoadAll(stored);
      exchanges := recovered;
      table := stored;
      tableExists := true;
      new;
      if WellFormedTable(stored) {
        RecoverConsistent(stored);
      }
    }

    /** exchange_mapper::insert: writes the row, the arguments in get_args text form
        (`order` is the order get_args took); it fails when the store refuses the write
        or the table has been dropped. */
    method Insert(e: Exchange, storeOk: bool) returns (ok: bool, ghost order: seq<string>)
      modifies this
      ensures ok == (tableExists && storeOk)
      ensures IsKeyOrder(order, e.args)
      ensures table == (if ok then old(table)[e.name := ExchangeRow(e.kind, e.durable, e.autoDelete, EncodeArgs(order, e.args))]
                       else old(table))
      ensures ok ==> RowOf(table[e.name], e)
      ensures exchanges == old(exchanges) && tableExists == old(tableExists)
    {
      var text;
      text, order := GetArgs(e.args);
      ok := tableExists && storeOk;
      if ok {
        RowOfText(e, order);
        table := table[e.name := ExchangeRow(e.kind, e.durable, e.autoDelete, text)];
      }
    }

    /** exchange_manager::declare_exchange as written: the result of the catalog insert
        is dropped, so a durable exchange whose row was not stored is declared anyway,
        and the table no longer holds every durable exchange. */
    method DeclareExchangeAsWritten(name: string, kind: ExchangeType, durable: bool, autoDelete: bool,
                                    args: ArgMap, storeOk: bool) returns (ok: bool, ghost order: seq<string>)
      modifies this
      ensures ok
      ensures name !in old(exchanges) && durable ==> IsKeyOrder(order, args)
      ensures name in old(exchanges) ==> exchanges == old(exchanges) && table == old(table)
      ensures name !in old(exchanges) ==>
        exchanges == old(exchanges)[name := Exchange(name, kind, durable, autoDelete, args)] &&
        table == (if durable && tableExists && storeOk
                  then old(table)[name := ExchangeRow(kind, durable, autoDelete, EncodeArgs(order, args))]
                  else old(table))
      ensures tableExists == old(tableExists)
      ensures old(Valid()) && !(name !in old(exchanges) && durable && !(tableExists && storeOk)) ==> Valid()
      ensures old(Valid()) && name !in old(exchanges) && durable && !(tableExists && storeOk) ==> !Valid()
    {
      ok := true;
      order := [];
      if name in exchanges {
        return;
      }
      var e := Exchange(name, kind, durable, autoDelete, args);
      if durable {
        var stored;
        stored, order := Insert(e, storeOk);
        if stored && old(Valid()) {
          ConsistentAddDurable(exchanges, old(table), tableExists, e, table[name]);
        }
      } else if Valid() {
        ConsistentAddTransient(exchanges, table, tableExists, e);
      }
      exchanges := exchanges[name := e];
    }

    /** exchange_manager::declare_exchange with the insert result checked, as
        queue and binding declarations do: a durable exchange whose row could not be
        stored is not declared, and the call reports false. */
    method DeclareExchange(name: string, kind: ExchangeType, durable: bool, autoDelete: bool,
                           args: ArgMap, storeOk: bool) returns (ok: bool, ghost order: seq<string>)
      modifies this
      ensures old(Valid()) ==> Valid()
      ensures tableExists == old(tableExists)
      ensures name in old(exchanges) ==> ok && exchanges == old(exchanges) && table == old(table)
      ensures name !in old(exchanges) && durable && !(tableExists && storeOk) ==>
        !ok && exchanges == old(exchanges) && table == old(table)
      ensures name !in old(exchanges) && !durable ==>
        ok && exchanges == old(exchanges)[name := Exchange(name, kind, durable, autoDelete, args)] && table == old(table)
      ensures name !in old(exchanges) && durable && tableExists && storeOk ==>
        ok && exchanges == old(exchanges)[name := Exchange(name, kind, durable, autoDelete, args)] &&
        IsKeyOrder(order, args) &&
        table == old(table)[name := ExchangeRow(kind, durable, autoDelete, EncodeArgs(order, args))]
      ensures ok <==> name in exchanges
    {
      order := [];
      if name in exchanges {
        return true, order;
      }
      var e := Exchange(name, kind, durable, autoDelete, args);
      if durable {
        var stored;
        stored, order := Insert(e, storeOk);
        if !stored {
          return false, order;
        }
        if old(Valid()) {
          ConsistentAddDurable(exchanges, old(table), tableExists, e, table[name]);
        }
      } else if Valid() {
        ConsistentAddTransient(exchanges, table, tableExists, e);
      }
      exchanges := exchanges[name := e];
      ok := true;
    }

    /** exchange_manager::delete_exchange: an unknown name changes nothing; otherwise the
        exchange leaves memory, and its row leaves the table when it is durable. */
    method DeleteExchange(name: string)
      modifies this
      ensures old(Valid()) ==> Valid()
      ensures tableExists == old(tableExists)
      ensures exchanges == old(exchanges) - {name}
      ensures table == (if name in old(exchanges) && old(exchanges)[name].durable then old(table) - {name} else old(table))
    {
      if name !in exchanges {
        return;
      }
      if exchanges[name].durable {
        table := table - {name};
      }
      exchanges := exchanges - {name};
    }

    /** exchange_manager::select_exchange: the exchange, or nothing (a null pointer). */
    method SelectExchange(name: string) returns (r: Option<Exchange>)
      ensures r.Some? <==> name in exchanges
      ensures r.Some? ==> r.value == exchanges[name]
    {
      if name in exchanges {
        r := Some(exchanges[name]);
      } else {
        r := None;
      }
    }

    /** exchange_manager::select_all_exchanges. */
    method SelectAllExchanges() returns (all: map<string, Exchange>)
      ensures all == exchanges
    {
      all := exchanges;
    }

    /** exchange_manager::exists. */
    method Exists(name: string) returns (b: bool)
      ensures b <==> name in exchanges
    {
      b := name in exchanges;
    }

    /** exchange_manager::clear_exchange: the table is dropped (not re-created) and
        memory is emptied. */
    method ClearExchange()
      modifies this
      ensures exchanges == map[] && table == map[] && !tableExists
      ensures Valid()
    {
      table := map[];
      tableExists := false;
      exchanges := map[];
    }

    /** exchange_manager::size. */
    method Size() returns (n: nat)
      ensures n == |exchanges|
    {
      n := |exchanges|;
    }
  }

  /** A durable declaration of a new name that the store accepts. */
  method DeclareNewDurable(m: ExchangeManager, name: string, args: ArgMap)
    requires m.tableExists && name !in m.exchanges
    modifies m
    ensures m.tableExists
    ensures m.table.Keys == old(m.table.Keys) + {name}
    ensures m.exchanges == old(m.exchanges)[name := Exchange(name, Direct, true, false, args)]
  {
    var _, _ := m.DeclareExchange(name, Direct, true, false, args, true);
  }

  /** Four durable declarations of distinct names on a fresh registry. */
  method DeclareFour(n1: string, n2: string, n3: string, n4: string, args: ArgMap) returns (m: ExchangeManager)
    requires n1 != n2 && n1 != n3 && n1 != n4 && n2 != n3 && n2 != n4 && n3 != n4
    ensures fresh(m) && m.tableExists
    ensures m.exchanges.Keys == {n1, n2, n3, n4} && m.table.Keys == {n1, n2, n3, n4}
    ensures m.exchanges[n3] == Exchange(n3, Direct, true, false, args)
  {
    m := new ExchangeManager(map[]);
    assert m.exchanges.Keys == {} && m.table.Keys == {};
    DeclareNewDurable(m, n1, args);
    assert m.exchanges.Keys == {n1} && m.table.Keys == {n1};
    DeclareNewDurable(m, n2, args);
    assert m.exchanges.Keys == {n1, n2} && m.table.Keys == {n1, n2};
    DeclareNewDurable(m, n3, args);
    assert m.exchanges.Keys == {n1, n2, n3} && m.table.Keys == {n1, n2, n3};
    DeclareNewDurable(m, n4, args);
  }

  /** The insert, select and remove tests of exchange_test.cc, for any four distinct
      names: four durable declarations, a selection, then a deletion. */
  method ExchangeTestScenario(n1: string, n2: string, n3: string, n4: string, args: ArgMap)
    returns (size: nat, selected: Option<Exchange>, deleted: Option<Exchange>, present: bool)
    requires n1 != n2 && n1 != n3 && n1 != n4 && n2 != n3 && n2 != n4 && n3 != n4
    ensures size == 4
    ensures selected == Some(Exchange(n3, Direct, true, false, args))
    ensures deleted.None? && !present
  {
    var m := DeclareFour(n1, n2, n3, n4, args);
    size := m.Size();
    selected := m.SelectExchange(n3);
    m.DeleteExchange(n3);
    deleted := m.SelectExchange(n3);
    present := m.Exists(n3);
  }

  /** The recovery test of exchange_test.cc: after the deletion, a restart from the
      table finds the other three exchanges and not the deleted one. */
  method ExchangeRecoveryScenario(n1: string, n2: string, n3: string, n4: string, args: ArgMap)
    returns (recovered: seq<bool>)
    requires n1 != n2 && n1 != n3 && n1 != n4 && n2 != n3 && n2 != n4 && n3 != n4
    ensures recovered == [true, true, false, true]
  {
    var m := DeclareFour(n1, n2, n3, n4, args);
    m.DeleteExchange(n3);
    assert m.table.Keys == {n1, n2, n4};
    var restarted := new ExchangeManager(m.table);
    assert restarted.exchanges.Keys == {n1, n2, n4};
    var e1 := restarted.Exists(n1);
    var e2 := restarted.Exists(n2);
    var e3 := restarted.Exists(n3);
    var e4 := restarted.Exists(n4);
    recovered := [e1, e2, e3, e4];
  }
}
