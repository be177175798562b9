// The queue registry (mqserver/queue.hpp): queues in memory, the durable ones also
// as rows of the catalog table `queue_table`.
module Queue {
  import opened Wrappers
  import opened Args
  import Exchange

  datatype MsgQueue = MsgQueue(name: string, durable: bool, exclusive: bool, autoDelete: bool, args: ArgMap)

  /** A row of `queue_table` apart from its primary key, the name; the arguments are
      kept in their text form. */
  datatype QueueRow = QueueRow(durable: bool, exclusive: bool, autoDelete: bool, args: string)

  /** msg_queue_mapper::select_callback: one queue from one row. */
  function FromRow(name: string, row: QueueRow): (q: MsgQueue)
    ensures q.name == name && q.durable == row.durable && q.exclusive == row.exclusive && q.autoDelete == row.autoDelete
    ensures q.args == Exchange.ReadArgs(row.args)
  {
    MsgQueue(name, row.durable, row.exclusive, row.autoDelete, Exchange.ReadArgs(row.args))
  }

  /** The row stands for the queue: same fields, an argument text of the form
      get_args writes, and arguments that the text form can hold read back as written
      with the extra "" -> "". */
  ghost predicate RowOf(row: QueueRow, q: MsgQueue)
  {
    row.durable == q.durable && row.exclusive == q.exclusive && row.autoDelete == q.autoDelete &&
    ArgsText(row.args) && (Encodable(q.args) ==> Exchange.ReadArgs(row.args) == WithEmptyPair(q.args))
  }

  /** The registry's invariant: every queue sits under its own name, the table holds
      exactly the durable ones, and a dropped table is empty. */
  ghost predicate Consistent(queues: map<string, MsgQueue>, table: map<string, QueueRow>, tableExists: bool)
  {
    (forall n :: n in queues ==> queues[n].name == n) &&
    (forall n :: n in table <==> n in queues && queues[n].durable) &&
    (!tableExists ==> table == map[]) &&
    (forall n :: n in table ==> RowOf(table[n], queues[n]))
  }

  /** A table as the registry leaves it: every row durable, its arguments in the
      text form get_args writes. */
  ghost predicate WellFormedTable(table: map<string, QueueRow>)
  {
    forall n :: n in table ==> table[n].durable && ArgsText(table[n].args)
  }

  /** msg_queue_mapper::all: the queues recovered from the table. */
  function Recover(table: map<string, QueueRow>): (r: map<string, MsgQueue>)
    ensures r.Keys == table.Keys
  {
    map n | n in table :: FromRow(n, table[n])
  }

  /** Recovering a well-formed table gives a consistent registry. */
  lemma RecoverConsistent(table: map<string, QueueRow>)
    requires WellFormedTable(table)
    ensures Consistent(Recover(table), table, true)
  {
    forall n | n in table
      ensures RowOf(table[n], Recover(table)[n])
    {
      ReadArgsTextHasEmptyKey(table[n].args);
    }
  }

  /** What a restart recovers from a consistent registry's table: exactly its durable
      queues, each with its fields, and, when its arguments are encodable, with them and
      the extra "" -> "" of set_args. */
  lemma RecoverDurable(queues: map<string, MsgQueue>, table: map<string, QueueRow>)
    requires Consistent(queues, table, true)
    ensures forall n :: n in Recover(table) <==> n in queues && queues[n].durable
    ensures forall n :: n in Recover(table) && Encodable(queues[n].args) ==>
              Recover(table)[n] == queues[n].(args := WithEmptyPair(queues[n].args))
  {
    forall n | n in Recover(table) && Encodable(queues[n].args)
      ensures Recover(table)[n] == queues[n].(args := WithEmptyPair(queues[n].args))
    {
      assert RowOf(table[n], queues[n]);
    }
  }

  /** The row insert writes for q, its arguments in the text form get_args
      writes in some key order, stands for q. */
  lemma RowOfText(q: MsgQueue, order: seq<string>)
    requires IsKeyOrder(order, q.args)
    ensures RowOf(QueueRow(q.durable, q.exclusive, q.autoDelete, EncodeArgs(order, q.args)), q)
  {
    if Encodable(q.args) {
      ArgsRoundTripAsWritten(order, q.args);
    }
    EncodeArgsText(order, q.args);
  }

  /** Declaring a durable queue under a new name, with a row that describes it,
      keeps the invariant. */
  lemma ConsistentAddDurable(queues: map<string, MsgQueue>, table: map<string, QueueRow>, tableExists: bool,
                             q: MsgQueue, row: QueueRow)
    requires Consistent(queues, table, tableExists) && q.name !in queues
    requires q.durable && tableExists && RowOf(row, q)
    ensures Consistent(queues[q.name := q], table[q.name := row], tableExists)
  {
    var m, t := queues[q.name := q], table[q.name := row];
    forall n | n in t
      ensures RowOf(t[n], m[n])
    {
      if n != q.name {
        assert t[n] == table[n] && m[n] == queues[n];
      }
    }
    forall n
      ensures n in t <==> n in m && m[n].durable
    {
      if n != q.name {
        assert n in m ==> m[n] == queues[n];
      }
    }
  }

  /** Declaring a transient queue under a new name keeps the invariant. */
  lemma ConsistentAddTransient(queues: map<string, MsgQueue>, table: map<string, QueueRow>, tableExists: bool,
                               q: MsgQueue)
    requires Consistent(queues, table, tableExists) && q.name !in queues && !q.durable
    ensures Consistent(queues[q.name := q], table, tableExists)
  {
    var m := queues[q.name := q];
    forall n | n in table
      ensures RowOf(table[n], m[n])
    {
      assert m[n] == queues[n];
    }
    forall n
      ensures n in table <==> n in m && m[n].durable
    {
      if n != q.name {
        assert n in m ==> m[n] == queues[n];
      }
    }
  }

  /** msg_queue_mapper::all with its callback. */
  method LoadAll(table: map<string, QueueRow>) returns (queues: map<string, MsgQueue>)
    ensures queues == Recover(table)
  {
    queues := map[];
    var rest := table.Keys;
    while rest != {}
      invariant rest <= table.Keys
      invariant queues.Keys == table.Keys - rest
      invariant forall n :: n in queues ==> queues[n] == FromRow(n, table[n])
      decreases rest
    {
      var n :| n in rest;
      var row := table[n];
      var args := SetArgsAsWritten(map[], row.args);
      var x := MsgQueue(n, row.durable, row.exclusive, row.autoDelete, args);
      assert x == FromRow(n, row);
      queues := queues[n := x];
      rest := rest - {n};
    }
    RecoverAll(table, queues);
  }

  /** A registry holding, for every row, the queue that row stands for is the
      recovered one. */
  lemma RecoverAll(table: map<string, QueueRow>, queues: map<string, MsgQueue>)
    requires queues.Keys == table.Keys
    requires forall n :: n in queues ==> queues[n] == FromRow(n, table[n])
    ensures queues == Recover(table)
  {
  }

  class MsgQueueManager {
    var queues: map<string, MsgQueue>
    /** The rows of `queue_table`, by primary key. */
    var table: map<string, QueueRow>
    /** False once clear_queues has dropped the table: inserts fail until restart. */
    var tableExists: bool

    ghost predicate Valid()
      reads this
    {
      Consistent(queues, table, tableExists)
    }

    /** msg_queue_manager's constructor: the table is created if missing, then read
        back with msg_queue_mapper::all. */
    constructor (stored: map<string, QueueRow>)
      ensures queues == Recover(stored) && table == stored && tableExists
      ensures WellFormedTable(stored) ==> Valid()
    {
      var recovered := LoadAll(stored);
      queues := recovered;
      table := stored;
      tableExists := true;
      new;
      if WellFormedTable(stored) {
        RecoverConsistent(stored);
      }
    }

    /** msg_queue_mapper::insert: writes the row, the arguments in get_args text form
        (`order` is the order get_args took); it fails when the store refuses the write
        or the table has been dropped. */
    method Insert(q: MsgQueue, storeOk: bool) returns (ok: bool, ghost order: seq<string>)
      modifies this
      ensures ok == (tableExists && storeOk)
      ensures IsKeyOrder(order, q.args)
      ensures table == (if ok then old(table)[q.name := QueueRow(q.durable, q.exclusive, q.autoDelete, EncodeArgs(order, q.args))]
                       else old(table))
      ensures ok ==> RowOf(table[q.name], q)
      ensures queues == old(queues) && tableExists == old(tableExists)
    {
      var text;
      text, order := GetArgs(q.args);
      ok := tableExists && storeOk;
      if ok {
        RowOfText(q, order);
        table := table[q.name := QueueRow(q.durable, q.exclusive, q.autoDelete, text)];
      }
    }

    /** msg_queue_manager::declare_queue: an existing name is kept as it is; a durable
        queue whose row could not be stored is not declared, and the call reports false. */
    method DeclareQueue(name: string, durable: bool, exclusive: bool, autoDelete: bool,
                        args: ArgMap, storeOk: bool) returns (ok: bool, ghost order: seq<string>)
      modifies this
      ensures old(Valid()) ==> Valid()
      ensures tableExists == old(tableExists)
      ensures name in old(queues) ==> ok && queues == old(queues) && table == old(table)
      ensures name !in old(queues) && durable && !(tableExists && storeOk) ==>
        !ok && queues == old(queues) && table == old(table)
      ensures name !in old(queues) && !durable ==>
        ok && queues == old(queues)[name := MsgQueue(name, durable, exclusive, autoDelete, args)] && table == old(table)
      ensures name !in old(queues) && durable && tableExists && storeOk ==>
        ok && queues == old(queues)[name := MsgQueue(name, durable, exclusive, autoDelete, args)] &&
        IsKeyOrder(order, args) &&
        table == old(table)[name := QueueRow(durable, exclusive, autoDelete, EncodeArgs(order, args))]
      ensures ok <==> name in queues
    {
      order := [];
      if name in queues {
        return true, order;
      }
      var q := MsgQueue(name, durable, exclusive, autoDelete, args);
      if durable {
        var stored;
        stored, order := Insert(q, storeOk);
        if !stored {
          return false, order;
        }
        if old(Valid()) {
          ConsistentAddDurable(queues, old(table), tableExists, q, table[name]);
        }
      } else if Valid() {
        ConsistentAddTransient(queues, table, tableExists, q);
      }
      queues := queues[name := q];
      ok := true;
    }

    /** msg_queue_manager::delete_queue: an unknown name changes nothing; otherwise the
        queue leaves memory, and its row leaves the table when it is durable. */
    method DeleteQueue(name: string)
      modifies this
      ensures old(Valid()) ==> Valid()
      ensures tableExists == old(tableExists)
      ensures queues == old(queues) - {name}
      ensures table == (if name in old(queues) && old(queues)[name].durable then old(table) - {name} else old(table))
    {
      if name !in queues {
        return;
      }
      if queues[name].durable {
        table := table - {name};
      }
      queues := queues - {name};
    }

    /** msg_queue_manager::select_queue: the queue, or nothing (a null pointer). */
    method SelectQueue(name: string) returns (r: Option<MsgQueue>)
      ensures r.Some? <==> name in queues
      ensures r.Some? ==> r.value == queues[name]
    {
      if name in queues {
        r := Some(queues[name]);
      } else {
        r := None;
      }
    }

    /** msg_queue_manager::all. */
    method All() returns (all: map<string, MsgQueue>)
      ensures all == queues
    {
      all := queues;
    }

    /** msg_queue_manager::exists. */
    method Exists(name: string) returns (b: bool)
      ensures b <==> name in queues
    {
      b := name in queues;
    }

    /** msg_queue_manager::size. */
    method Size() returns (n: nat)
      ensures n == |queues|
    {
      n := |queues|;
    }

    /** msg_queue_manager::clear_queues: the table is dropped (not re-created) and
        memory is emptied. */
    method ClearQueues()
      modifies this
      ensures queues == map[] && table == map[] && !tableExists
      ensures Valid()
    {
      table := map[];
      tableExists := false;
      queues := map[];
    }
  }

  /** A durable, exclusive declaration of a new name that the store accepts. */
  method DeclareNewDurable(m: MsgQueueManager, name: string, args: ArgMap)
    requires m.tableExists && name !in m.queues
    modifies m
    ensures m.tableExists
    ensures m.table.Keys == old(m.table.Keys) + {name}
    ensures m.queues == old(m.queues)[name := MsgQueue(name, true, true, false, args)]
  {
    var _, _ := m.DeclareQueue(name, true, true, false, args, true);
  }

  /** Four durable declarations of distinct names on a fresh registry. */
  method DeclareFour(n1: string, n2: string, n3: string, n4: string, args: ArgMap) returns (m: MsgQueueManager)
    requires n1 != n2 && n1 != n3 && n1 != n4 && n2 != n3 && n2 != n4 && n3 != n4
    ensures fresh(m) && m.tableExists
    ensures m.queues.Keys == {n1, n2, n3, n4} && m.table.Keys == {n1, n2, n3, n4}
    ensures m.queues[n4] == MsgQueue(n4, true, true, false, args) && m.queues[n3].durable
  {
    m := new MsgQueueManager(map[]);
    assert m.queues.Keys == {} && m.table.Keys == {};
    DeclareNewDurable(m, n1, args);
    assert m.queues.Keys == {n1} && m.table.Keys == {n1};
    DeclareNewDurable(m, n2, args);
    assert m.queues.Keys == {n1, n2} && m.table.Keys == {n1, n2};
    DeclareNewDurable(m, n3, args);
    assert m.queues.Keys == {n1, n2, n3} && m.table.Keys == {n1, n2, n3};
    DeclareNewDurable(m, n4, args);
  }

  /** The insert, select and remove tests of queue_test.cc, for any four distinct
      names: four durable declarations, a selection, then a deletion. */
  method QueueTestScenario(n1: string, n2: string, n3: string, n4: string, args: ArgMap)
    returns (size: nat, selected: Option<MsgQueue>, deleted: Option<MsgQueue>, present: bool)
    requires n1 != n2 && n1 != n3 && n1 != n4 && n2 != n3 && n2 != n4 && n3 != n4
    ensures size == 4
    ensures selected == Some(MsgQueue(n4, true, true, false, args))
    ensures deleted.None? && !present
  {
    var m := DeclareFour(n1, n2, n3, n4, args);
    size := m.Size();
    selected := m.SelectQueue(n4);
    m.DeleteQueue(n3);
    deleted := m.SelectQueue(n3);
    present := m.Exists(n3);
  }

  /** The selected queue's arguments in queue_test.cc, {k: v}, print as "k=v&". */
  method SingleArgScenario(k: string, v: string) returns (text: string)
    ensures text == k + "=" + v + "&"
  {
    ghost var order;
    text, order := GetArgs(map[k := v]);
    SingleArgText(k, v, order);
  }

  /** The recovery test of queue_test.cc: after the deletion, a restart from the table
      finds the other three queues and not the deleted one. */
  method QueueRecoveryScenario(n1: string, n2: string, n3: string, n4: string, args: ArgMap)
    returns (recovered: seq<bool>)
    requires n1 != n2 && n1 != n3 && n1 != n4 && n2 != n3 && n2 != n4 && n3 != n4
    ensures recovered == [true, true, false, true]
  {
    var m := DeclareFour(n1, n2, n3, n4, args);
    m.DeleteQueue(n3);
    assert m.table.Keys == {n1, n2, n4};
    var restarted := new MsgQueueManager(m.table);
    assert restarted.queues.Keys == {n1, n2, n4};
    var e1 := restarted.Exists(n1);
    var e2 := restarted.Exists(n2);
    var e3 := restarted.Exists(n3);
    var e4 := restarted.Exists(n4);
    recovered := [e1, e2, e3, e4];
  }
}
