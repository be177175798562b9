// The binding registry (mqserver/binding.hpp): exchange name -> queue name -> binding
// in memory; the durable bindings also as rows of the catalog table `binding_table`.
module Binding {
  import opened Wrappers

  datatype Binding = Binding(exchangeName: string, queueName: string, bindingKey: string)

  type QueueBindings = map<string, Binding>
  type BindingMap = map<string, QueueBindings>

  // ---------------------------------------------------------------------------
  // The catalog table
  // ---------------------------------------------------------------------------

  /** The WHERE clauses of the three DELETE statements. */
  datatype Where = PairIs(e: string, q: string) | ExchangeIs(e: string) | QueueIs(q: string)

  predicate Hits(w: Where, b: Binding)
  {
    match w
    case PairIs(e, q) => b.exchangeName == e && b.queueName == q
    case ExchangeIs(e) => b.exchangeName == e
    case QueueIs(q) => b.queueName == q
  }

  /** DELETE FROM binding_table WHERE ...: the rows the clause hits go, the others stay
      in their order. */
  function Delete(rows: seq<Binding>, w: Where): (r: seq<Binding>)
    ensures |r| <= |rows|
    decreases |rows|
  {
    if |rows| == 0 then []
    else (if Hits(w, rows[0]) then [] else [rows[0]]) + Delete(rows[1..], w)
  }

  /** The delete keeps exactly the rows the condition does not hit. */
  lemma {:induction false} DeleteKeeps(rows: seq<Binding>, w: Where)
    ensures forall b :: b in Delete(rows, w) <==> b in rows && !Hits(w, b)
    decreases |rows|
  {
    if |rows| > 0 {
      DeleteKeeps(rows[1..], w);
      assert rows == [rows[0]] + rows[1..];
    }
  }

  // ---------------------------------------------------------------------------
  // Recovery: binding_mapper::select_callback
  // ---------------------------------------------------------------------------

  /** The queue bindings of exchange `e`, empty when it has none (the effect of
      `__bindings[ename]`). */
  function InnerOf(m: BindingMap, e: string): (inner: QueueBindings)
    ensures e in m ==> inner == m[e]
    ensures e !in m ==> inner == map[]
  {
    if e in m then m[e] else map[]
  }

  /** One row into the map: a pair already present keeps its first binding. */
  function AddRow(m: BindingMap, b: Binding): BindingMap
  {
    var inner := InnerOf(m, b.exchangeName);
    if b.queueName in inner then m else m[b.exchangeName := inner[b.queueName := b]]
  }

  /** The rows grouped by exchange, then by queue, in table order. */
  function Group(rows: seq<Binding>): BindingMap
    decreases |rows|
  {
    if |rows| == 0 then map[] else AddRow(Group(rows[..|rows| - 1]), rows[|rows| - 1])
  }

  predicate SamePair(a: Binding, b: Binding)
  {
    a.exchangeName == b.exchangeName && a.queueName == b.queueName
  }

  /** Every entry sits under its own exchange and queue names. */
  ghost predicate WellKeyed(m: BindingMap)
  {
    forall e, q :: e in m && q in m[e] ==> m[e][q].exchangeName == e && m[e][q].queueName == q
  }

  function Entry(m: BindingMap, e: string, q: string): Option<Binding>
  {
    if e in m && q in m[e] then Some(m[e][q]) else None
  }

  /** Adding a row keeps every entry already there, and the new pair is present. */
  lemma AddRowKeeps(m: BindingMap, b: Binding)
    ensures forall e, q :: Entry(m, e, q).Some? ==> Entry(AddRow(m, b), e, q) == Entry(m, e, q)
    ensures Entry(AddRow(m, b), b.exchangeName, b.queueName).Some?
    ensures Entry(m, b.exchangeName, b.queueName).None? ==> Entry(AddRow(m, b), b.exchangeName, b.queueName) == Some(b)
    ensures forall e, q :: Entry(AddRow(m, b), e, q).Some? && Entry(m, e, q).None? ==>
              Entry(AddRow(m, b), e, q) == Some(b)
  {
  }

  /** Grouping files each row under its own names. */
  lemma {:induction false} GroupWellKeyed(rows: seq<Binding>)
    ensures WellKeyed(Group(rows))
    decreases |rows|
  {
    if |rows| > 0 {
      GroupWellKeyed(rows[..|rows| - 1]);
    }
  }

  /** Every grouped binding is one of the rows. */
  lemma {:induction false} GroupSound(rows: seq<Binding>)
    ensures forall e, q :: Entry(Group(rows), e, q).Some? ==> Entry(Group(rows), e, q).value in rows
    decreases |rows|
  {
    if |rows| > 0 {
      var init := rows[..|rows| - 1];
      GroupSound(init);
      AddRowKeeps(Group(init), rows[|rows| - 1]);
      assert forall b :: b in init ==> b in rows;
    }
  }

  /** Every row's pair is present after grouping, and a row that is the first with its
      pair is the binding kept for it. */
  lemma {:induction false} GroupFirstWins(rows: seq<Binding>)
    ensures forall i :: 0 <= i < |rows| ==> Entry(Group(rows), rows[i].exchangeName, rows[i].queueName).Some?
    ensures forall i :: 0 <= i < |rows| && (forall j :: 0 <= j < i ==> !SamePair(rows[j], rows[i])) ==>
              Entry(Group(rows), rows[i].exchangeName, rows[i].queueName) == Some(rows[i])
    decreases |rows|
  {
    if |rows| > 0 {
      var init, b := rows[..|rows| - 1], rows[|rows| - 1];
      GroupFirstWins(init);
      assert rows == init + [b];
      GroupPresentStep(init, b);
      GroupKeptStep(init, b);
    }
  }

  /** The pairs present for some rows stay present with one more row, whose pair is
      present too. */
  lemma GroupPresentStep(init: seq<Binding>, b: Binding)
    requires forall i :: 0 <= i < |init| ==> Entry(Group(init), init[i].exchangeName, init[i].queueName).Some?
    ensures forall i :: 0 <= i < |init + [b]| ==>
      Entry(Group(init + [b]), (init + [b])[i].exchangeName, (init + [b])[i].queueName).Some?
  {
    assert (init + [b])[..|init|] == init;
    AddRowKeeps(Group(init), b);
  }

  /** The row kept for a pair stays kept with one more row; that row, if first with
      its pair, is kept. */
  lemma GroupKeptStep(init: seq<Binding>, b: Binding)
    requires forall i :: 0 <= i < |init| && (forall j :: 0 <= j < i ==> !SamePair(init[j], init[i])) ==>
      Entry(Group(init), init[i].exchangeName, init[i].queueName) == Some(init[i])
    ensures forall i :: 0 <= i < |init + [b]| && (forall j :: 0 <= j < i ==> !SamePair((init + [b])[j], (init + [b])[i])) ==>
      Entry(Group(init + [b]), (init + [b])[i].exchangeName, (init + [b])[i].queueName) == Some((init + [b])[i])
  {
    var rows := init + [b];
    assert rows[..|init|] == init;
    AddRowKeeps(Group(init), b);
    forall i | 0 <= i < |rows| && (forall j :: 0 <= j < i ==> !SamePair(rows[j], rows[i]))
      ensures Entry(Group(rows), rows[i].exchangeName, rows[i].queueName) == Some(rows[i])
    {
      if i < |init| {
        assert rows[i] == init[i];
        assert forall j :: 0 <= j < i ==> init[j] == rows[j];
      } else {
        GroupSound(init);
        GroupWellKeyed(init);
      }
    }
  }

  /** Grouping makes no exchange without a binding. */
  lemma {:induction false} GroupNoEmpty(rows: seq<Binding>)
    ensures forall e :: e in Group(rows) ==> |Group(rows)[e]| > 0
    decreases |rows|
  {
    if |rows| > 0 {
      GroupNoEmpty(rows[..|rows| - 1]);
    }
  }

  /** binding_mapper::all with its callback. */
  method LoadAll(rows: seq<Binding>) returns (m: BindingMap)
    ensures m == Group(rows)
  {
    m := map[];
    var i := 0;
    while i < |rows|
      invariant i <= |rows|
      invariant m == Group(rows[..i])
    {
      assert rows[..i + 1][..i] == rows[..i];
      var b := rows[i];
      var inner := if b.exchangeName in m then m[b.exchangeName] else map[];
      if b.queueName !in inner {
        m := m[b.exchangeName := inner[b.queueName := b]];
      }
      i := i + 1;
    }
    assert rows[..i] == rows;
  }

  // ---------------------------------------------------------------------------
  // Counting bindings
  // ---------------------------------------------------------------------------

  /** The (exchange, queue) pairs that are bound. */
  ghost function Pairs(m: BindingMap): set<(string, string)>
  {
    set e, q | e in m && q in m[e] :: (e, q)
  }

  /** The number of bindings. */
  ghost function Count(m: BindingMap): nat
  {
    |Pairs(m)|
  }

  /** The pairs of one exchange are as many as its queues. */
  lemma {:induction false} PairsOfOne(e: string, inner: QueueBindings)
    ensures |set q | q in inner :: (e, q)| == |inner|
    decreases inner.Keys
  {
    if inner != map[] {
      var q :| q in inner;
      var rest := inner - {q};
      PairsOfOne(e, rest);
      assert (set x | x in inner :: (e, x)) == (set x | x in rest :: (e, x)) + {(e, q)};
    } else {
      assert (set x | x in inner :: (e, x)) == {};
    }
  }

  /** The count is one exchange's queues plus the count of the others: the sum of the
      inner-map sizes, taken in any order. */
  lemma CountRemove(m: BindingMap, e: string)
    requires e in m
    ensures Count(m) == |m[e]| + Count(m - {e})
  {
    var others := Pairs(m - {e});
    var mine := set q | q in m[e] :: (e, q);
    assert Pairs(m) == others + mine;
    assert others * mine == {};
    PairsOfOne(e, m[e]);
  }

  /** Replacing or adding one exchange's inner map changes the count by the difference
      of the sizes. */
  lemma CountUpdate(m: BindingMap, e: string, inner: QueueBindings)
    ensures Count(m[e := inner]) == Count(m) - |InnerOf(m, e)| + |inner|
  {
    CountRemove(m[e := inner], e);
    assert m[e := inner] - {e} == m - {e};
    if e in m {
      CountRemove(m, e);
    } else {
      assert m - {e} == m;
    }
  }

  /** Setting one pair: that entry becomes the binding, every other entry stays, and
      a well-keyed map stays well keyed. */
  lemma SetEntry(m: BindingMap, b: Binding)
    ensures forall x, y :: Entry(m[b.exchangeName := InnerOf(m, b.exchangeName)[b.queueName := b]], x, y) ==
              if x == b.exchangeName && y == b.queueName then Some(b) else Entry(m, x, y)
    ensures WellKeyed(m) ==> WellKeyed(m[b.exchangeName := InnerOf(m, b.exchangeName)[b.queueName := b]])
  {
    var m' := m[b.exchangeName := InnerOf(m, b.exchangeName)[b.queueName := b]];
    forall x, y
      ensures Entry(m', x, y) == if x == b.exchangeName && y == b.queueName then Some(b) else Entry(m, x, y)
    {
      if x == b.exchangeName {
        assert m'[x] == InnerOf(m, x)[b.queueName := b];
      }
    }
  }

  /** Dropping one pair: that entry goes, every other entry stays, and a well-keyed map
      stays well keyed. */
  lemma DropEntry(m: BindingMap, e: string, q: string)
    requires e in m
    ensures forall x, y :: Entry(m[e := m[e] - {q}], x, y) == if x == e && y == q then None else Entry(m, x, y)
    ensures WellKeyed(m) ==> WellKeyed(m[e := m[e] - {q}])
  {
    var m' := m[e := m[e] - {q}];
    forall x, y
      ensures Entry(m', x, y) == if x == e && y == q then None else Entry(m, x, y)
    {
      if x == e {
        assert m'[x] == m[e] - {q};
      }
    }
  }

  /** Dropping an exchange drops exactly its entries. */
  lemma DropExchange(m: BindingMap, e: string)
    ensures forall x, y :: Entry(m - {e}, x, y) == if x == e then None else Entry(m, x, y)
  {
  }

  lemma CountEmpty()
    ensures Count(map[]) == 0
  {
  }

  /** Rows naming the same pair are the same row. */
  ghost predicate RowsAgree(rows: seq<Binding>)
  {
    forall i, j :: 0 <= i < |rows| && 0 <= j < |rows| && SamePair(rows[i], rows[j]) ==> rows[i] == rows[j]
  }

  /** The registry recovered from a table whose rows agree is valid: every row is
      recovered as it is. */
  lemma RecoveredValid(rows: seq<Binding>)
    requires RowsAgree(rows)
    ensures WellKeyed(Group(rows))
    ensures forall b :: b in rows ==> Entry(Group(rows), b.exchangeName, b.queueName) == Some(b)
  {
    GroupWellKeyed(rows);
    GroupFirstWins(rows);
    forall b | b in rows
      ensures Entry(Group(rows), b.exchangeName, b.queueName) == Some(b)
    {
      var i :| 0 <= i < |rows| && rows[i] == b;
      var first := FirstWithPair(rows, i);
      assert rows[first] == b;
    }
  }

  /** The first row with the same pair as row `i`. */
  lemma {:induction false} FirstWithPair(rows: seq<Binding>, i: nat) returns (first: nat)
    requires i < |rows|
    ensures first <= i && SamePair(rows[first], rows[i])
    ensures forall j :: 0 <= j < first ==> !SamePair(rows[j], rows[first])
    decreases i
  {
    first := i;
    var j := 0;
    while j < i
      invariant j <= i
      invariant forall k :: 0 <= k < j ==> !SamePair(rows[k], rows[i])
    {
      if SamePair(rows[j], rows[i]) {
        return j;
      }
      j := j + 1;
    }
  }

  /** What a restart recovers from a valid registry's table: the bindings the rows
      name, each as it was in memory, and nothing else. */
  lemma RestartRecovers(bindings: BindingMap, rows: seq<Binding>)
    requires forall b :: b in rows ==> Entry(bindings, b.exchangeName, b.queueName) == Some(b)
    ensures forall b :: b in rows ==> Entry(Group(rows), b.exchangeName, b.queueName) == Entry(bindings, b.exchangeName, b.queueName)
    ensures forall e, q :: Entry(Group(rows), e, q).Some? ==> Entry(Group(rows), e, q) == Entry(bindings, e, q)
  {
    GroupWellKeyed(rows);
    GroupSound(rows);
    GroupFirstWins(rows);
  }

  /** The registry's invariant. */
  ghost predicate Consistent(bindings: BindingMap, table: seq<Binding>, tableExists: bool)
  {
    WellKeyed(bindings) &&
    (forall b :: b in table ==> Entry(bindings, b.exchangeName, b.queueName) == Some(b)) &&
    (!tableExists ==> table == [])
  }

  /** Binding a new pair, with or without its row, keeps the invariant. */
  lemma BindConsistent(bindings: BindingMap, table: seq<Binding>, tableExists: bool, b: Binding, row: bool)
    requires Consistent(bindings, table, tableExists)
    requires Entry(bindings, b.exchangeName, b.queueName).None?
    requires row ==> tableExists
    ensures Consistent(bindings[b.exchangeName := InnerOf(bindings, b.exchangeName)[b.queueName := b]],
                       table + (if row then [b] else []), tableExists)
  {
    SetEntry(bindings, b);
  }

  /** The bindings left when a queue goes from under every exchange. */
  function WithoutQueue(m: BindingMap, q: string): (r: BindingMap)
    ensures r.Keys == m.Keys
    ensures forall e, y :: Entry(r, e, y) == if y == q then None else Entry(m, e, y)
  {
    map e | e in m :: m[e] - {q}
  }

  /** Removing a queue everywhere, in memory and in the table, keeps the invariant. */
  lemma UnbindQueueConsistent(bindings: BindingMap, table: seq<Binding>, tableExists: bool, q: string)
    requires Consistent(bindings, table, tableExists)
    ensures Consistent(WithoutQueue(bindings, q), Delete(table, QueueIs(q)), tableExists)
  {
    DeleteKeeps(table, QueueIs(q));
  }

  // ---------------------------------------------------------------------------
  // The registry
  // ---------------------------------------------------------------------------

  class BindingManager {
    var bindings: BindingMap
    /** The rows of `binding_table`. */
    var table: seq<Binding>
    /** False once clear_bindings has dropped the table: inserts fail until restart. */
    var tableExists: bool
    /** Every binding sits under its names; every row of the table is a binding held in
        memory; a dropped table is empty. */
    ghost predicate Valid()
      reads this
    {
      Consistent(bindings, table, tableExists)
    }

    /** binding_manager's constructor: the table is created if missing, then read back
        with binding_mapper::all. */
    constructor (stored: seq<Binding>)
      ensures bindings == Group(stored) && table == stored && tableExists
      ensures RowsAgree(stored) ==> Valid()
    {
      var recovered := LoadAll(stored);
      bindings := recovered;
      table := stored;
      tableExists := true;
      new;
      if RowsAgree(stored) {
        RecoveredValid(stored);
      }
    }

    /** binding_manager::bind: an existing pair is kept with its key; a durable binding
        whose row could not be stored is not made, and the call reports false. */
    method Bind(e: string, q: string, key: string, durable: bool, storeOk: bool) returns (ok: bool)
      modifies this
      ensures old(Valid()) ==> Valid()
      ensures tableExists == old(tableExists)
      ensures Entry(old(bindings), e, q).Some? ==>
        ok && bindings == old(bindings) && table == old(table)
      ensures Entry(old(bindings), e, q).None? && durable && !(tableExists && storeOk) ==>
        !ok && bindings == old(bindings) && table == old(table)
      ensures Entry(old(bindings), e, q).None? && (!durable || (tableExists && storeOk)) ==>
        ok &&
        bindings == old(bindings)[e := InnerOf(old(bindings), e)[q := Binding(e, q, key)]] &&
        table == old(table) + (if durable then [Binding(e, q, key)] else []) &&
        Count(bindings) == Count(old(bindings)) + 1
      ensures ok <==> Entry(bindings, e, q).Some?
    {
      if e in bindings && q in bindings[e] {
        return true;
      }
      var b := Binding(e, q, key);
      if durable && !(tableExists && storeOk) {
        return false;
      }
      var inner := if e in bindings then bindings[e] else map[];
      var updated := bindings[e := inner[q := b]];
      var rows := table + (if durable then [b] else []);
      if Valid() {
        BindConsistent(bindings, table, tableExists, b, durable);
      }
      CountUpdate(bindings, e, inner[q := b]);
      assert |inner[q := b]| == |inner| + 1;
      SetEntry(bindings, b);
      bindings, table, ok := updated, rows, true;
    }

    /** binding_manager::unbind: an absent pair changes nothing; otherwise only that
        pair goes, from memory and from the table. */
    method Unbind(e: string, q: string)
      modifies this
      ensures old(Valid()) ==> Valid()
      ensures tableExists == old(tableExists)
      ensures Entry(old(bindings), e, q).None? ==> bindings == old(bindings) && table == old(table)
      ensures Entry(old(bindings), e, q).Some? ==>
        bindings == old(bindings)[e := old(bindings)[e] - {q}] &&
        table == Delete(old(table), PairIs(e, q)) &&
        Count(bindings) + 1 == Count(old(bindings))
    {
      if e !in bindings || q !in bindings[e] {
        return;
      }
      DeleteKeeps(table, PairIs(e, q));
      table := Delete(table, PairIs(e, q));
      CountUpdate(bindings, e, bindings[e] - {q});
      DropEntry(bindings, e, q);
      bindings := bindings[e := bindings[e] - {q}];
    }

    /** binding_manager::unbind_exchange: every binding of the exchange goes, and no
        other. */
    method UnbindExchange(e: string)
      modifies this
      ensures old(Valid()) ==> Valid()
      ensures tableExists == old(tableExists)
      ensures bindings == old(bindings) - {e}
      ensures table == Delete(old(table), ExchangeIs(e))
    {
      DeleteKeeps(table, ExchangeIs(e));
      table := Delete(table, ExchangeIs(e));
      bindings := bindings - {e};
    }

    /** binding_manager::unbind_queue: the queue goes from under every exchange; the
        other queues' bindings stay. */
    method UnbindQueue(q: string)
      modifies this
      ensures old(Valid()) ==> Valid()
      ensures tableExists == old(tableExists)
      ensures bindings == WithoutQueue(old(bindings), q)
      ensures table == Delete(old(table), QueueIs(q))
    {
      table := Delete(table, QueueIs(q));
      var rest := bindings.Keys;
      while rest != {}
        invariant rest <= bindings.Keys
        invariant table == Delete(old(table), QueueIs(q)) && tableExists == old(tableExists)
        invariant bindings.Keys == old(bindings).Keys
        invariant forall e :: e in bindings ==> bindings[e] == if e in rest then old(bindings)[e] else old(bindings)[e] - {q}
        decreases rest
      {
        var e :| e in rest;
        bindings := bindings[e := bindings[e] - {q}];
        rest := rest - {e};
      }
      assert bindings == WithoutQueue(old(bindings), q);
      if old(Valid()) {
        UnbindQueueConsistent(old(bindings), old(table), old(tableExists), q);
      }
    }

    /** binding_manager::get_exchange_bindings: the exchange's bindings by queue, empty
        for an unknown exchange. */
    method GetExchangeBindings(e: string) returns (r: QueueBindings)
      ensures forall q :: q in r <==> Entry(bindings, e, q).Some?
      ensures forall q :: q in r ==> Some(r[q]) == Entry(bindings, e, q)
      ensures e !in bindings ==> r == map[]
      ensures r == InnerOf(bindings, e)
    {
      if e in bindings {
        r := bindings[e];
      } else {
        r := map[];
      }
    }

    /** binding_manager::get_binding: the binding of the pair, or nothing. */
    method GetBinding(e: string, q: string) returns (r: Option<Binding>)
      ensures r == Entry(bindings, e, q)
      ensures r.Some? <==> e in bindings && q in bindings[e]
    {
      if e !in bindings {
        return None;
      }
      if q !in bindings[e] {
        return None;
      }
      r := Some(bindings[e][q]);
    }

    /** binding_manager::exists. */
    method Exists(e: string, q: string) returns (b: bool)
      ensures b <==> Entry(bindings, e, q).Some?
    {
      b := e in bindings && q in bindings[e];
    }

    /** binding_manager::size: the inner-map sizes summed. */
    method Size() returns (n: nat)
      ensures n == Count(bindings)
    {
      n := 0;
      var rest := bindings;
      while rest != map[]
        invariant n + Count(rest) == Count(bindings)
        decreases rest.Keys
      {
        var e :| e in rest;
        CountRemove(rest, e);
        n := n + |rest[e]|;
        rest := rest - {e};
      }
    }

    /** binding_manager::clear_bindings: the table is dropped (not re-created) and
        memory is emptied. */
    method ClearBindings()
      modifies this
      ensures bindings == map[] && table == [] && !tableExists
      ensures Valid()
    {
      table := [];
      tableExists := false;
      bindings := map[];
    }
  }

  /** A durable binding of a new pair that the store accepts. */
  method BindNewDurable(m: BindingManager, e: string, q: string, key: string)
    requires m.tableExists && Entry(m.bindings, e, q).None?
    modifies m
    ensures m.tableExists && m.table == old(m.table) + [Binding(e, q, key)]
    ensures m.bindings == old(m.bindings)[e := InnerOf(old(m.bindings), e)[q := Binding(e, q, key)]]
    ensures Count(m.bindings) == Count(old(m.bindings)) + 1
  {
    var _ := m.Bind(e, q, key, true, true);
  }

  /** Three durable bindings of one new exchange. */
  method BindThree(m: BindingManager, e: string, q1: string, q2: string, q3: string, k1: string, k2: string, k3: string)
    requires m.tableExists && e !in m.bindings && q1 != q2 && q1 != q3 && q2 != q3
    modifies m
    ensures m.tableExists
    ensures m.table == old(m.table) + [Binding(e, q1, k1), Binding(e, q2, k2), Binding(e, q3, k3)]
    ensures m.bindings == old(m.bindings)[e := map[q1 := Binding(e, q1, k1), q2 := Binding(e, q2, k2), q3 := Binding(e, q3, k3)]]
    ensures Count(m.bindings) == Count(old(m.bindings)) + 3
  {
    BindNewDurable(m, e, q1, k1);
    BindNewDurable(m, e, q2, k2);
    BindNewDurable(m, e, q3, k3);
    assert m.table == old(m.table) + [Binding(e, q1, k1), Binding(e, q2, k2), Binding(e, q3, k3)];
  }

  /** The six durable bindings of binding_test.cc on a fresh registry: every exchange
      with every queue. */
  method BindSix(e1: string, e2: string, q1: string, q2: string, q3: string, keys: seq<string>)
    returns (m: BindingManager)
    requires e1 != e2 && q1 != q2 && q1 != q3 && q2 != q3 && |keys| == 6
    ensures fresh(m) && m.tableExists
    ensures Count(m.bindings) == 6
    ensures m.bindings == map[e1 := map[q1 := Binding(e1, q1, keys[0]), q2 := Binding(e1, q2, keys[1]), q3 := Binding(e1, q3, keys[2])],
                              e2 := map[q1 := Binding(e2, q1, keys[3]), q2 := Binding(e2, q2, keys[4]), q3 := Binding(e2, q3, keys[5])]]
    ensures m.table == [Binding(e1, q1, keys[0]), Binding(e1, q2, keys[1]), Binding(e1, q3, keys[2]),
                        Binding(e2, q1, keys[3]), Binding(e2, q2, keys[4]), Binding(e2, q3, keys[5])]
  {
    m := new BindingManager([]);
    assert m.bindings == map[];
    CountEmpty();
    BindThree(m, e1, q1, q2, q3, keys[0], keys[1], keys[2]);
    BindThree(m, e2, q1, q2, q3, keys[3], keys[4], keys[5]);
  }

  /** The insert, select and select_exchange tests of binding_test.cc: six bindings
      count 6, each pair exists, the first carries its key, and the first exchange has
      exactly the three queues. */
  method BindingSelectScenario(e1: string, e2: string, q1: string, q2: string, q3: string, keys: seq<string>)
    returns (size: nat, first: Option<Binding>, ofFirst: QueueBindings)
    requires e1 != e2 && q1 != q2 && q1 != q3 && q2 != q3 && |keys| == 6
    ensures size == 6
    ensures first == Some(Binding(e1, q1, keys[0]))
    ensures ofFirst.Keys == {q1, q2, q3}
  {
    var m := BindSix(e1, e2, q1, q2, q3, keys);
    size := m.Size();
    first := m.GetBinding(e1, q1);
    ofFirst := m.GetExchangeBindings(e1);
    assert forall y :: y in ofFirst <==> y == q1 || y == q2 || y == q3;
  }

  /** The six bindings of the binding tests, as the manager holds them. */
  function SixBindings(e1: string, e2: string, q1: string, q2: string, q3: string, keys: seq<string>): (r: BindingMap)
    requires |keys| == 6
    ensures r.Keys == {e1, e2}
  {
    map[e1 := map[q1 := Binding(e1, q1, keys[0]), q2 := Binding(e1, q2, keys[1]), q3 := Binding(e1, q3, keys[2])],
        e2 := map[q1 := Binding(e2, q1, keys[3]), q2 := Binding(e2, q2, keys[4]), q3 := Binding(e2, q3, keys[5])]]
  }

  /** Removing the first queue everywhere leaves two bindings per exchange. */
  lemma RemoveFirstQueue(e1: string, e2: string, q1: string, q2: string, q3: string, keys: seq<string>)
    requires e1 != e2 && q1 != q2 && q1 != q3 && q2 != q3 && |keys| == 6
    ensures WithoutQueue(SixBindings(e1, e2, q1, q2, q3, keys), q1)
         == map[e1 := map[q2 := Binding(e1, q2, keys[1]), q3 := Binding(e1, q3, keys[2])],
                e2 := map[q2 := Binding(e2, q2, keys[4]), q3 := Binding(e2, q3, keys[5])]]
  {
    var m := SixBindings(e1, e2, q1, q2, q3, keys);
    assert m[e1] - {q1} == map[q2 := Binding(e1, q2, keys[1]), q3 := Binding(e1, q3, keys[2])];
    assert m[e2] - {q1} == map[q2 := Binding(e2, q2, keys[4]), q3 := Binding(e2, q3, keys[5])];
  }

  /** Removing rows from a table with a given first row. */
  lemma DeleteCons(x: Binding, rest: seq<Binding>, w: Where)
    ensures Delete([x] + rest, w) == (if Hits(w, x) then [] else [x]) + Delete(rest, w)
  {
    assert ([x] + rest)[1..] == rest;
  }

  /** Removing every row of a table that has no row to remove changes nothing. */
  lemma {:induction false} DeleteNone(rows: seq<Binding>, w: Where)
    requires forall i :: 0 <= i < |rows| ==> !Hits(w, rows[i])
    ensures Delete(rows, w) == rows
    decreases |rows|
  {
    if |rows| > 0 {
      DeleteNone(rows[1..], w);
      DeleteCons(rows[0], rows[1..], w);
      assert [rows[0]] + rows[1..] == rows;
    }
  }

  /** Removing rows from two tables one after the other. */
  lemma {:induction false} DeleteAppend(xs: seq<Binding>, ys: seq<Binding>, w: Where)
    ensures Delete(xs + ys, w) == Delete(xs, w) + Delete(ys, w)
    decreases |xs|
  {
    if |xs| > 0 {
      var head := if Hits(w, xs[0]) then [] else [xs[0]];
      var rest := xs[1..] + ys;
      assert xs + ys == [xs[0]] + rest;
      DeleteCons(xs[0], rest, w);
      DeleteAppend(xs[1..], ys, w);
      assert Delete(xs + ys, w) == head + (Delete(xs[1..], w) + Delete(ys, w));
    } else {
      assert xs + ys == ys;
    }
  }

  /** Removing from three rows the first of which is hit. */
  lemma DeleteFirstOfThree(a: Binding, b: Binding, c: Binding, w: Where)
    requires Hits(w, a) && !Hits(w, b) && !Hits(w, c)
    ensures Delete([a, b, c], w) == [b, c]
  {
    DeleteNone([b, c], w);
    DeleteCons(a, [b, c], w);
    assert [a] + [b, c] == [a, b, c];
  }

  /** Removing rows from six rows, three at a time. */
  lemma DeleteSixByHalves(a: Binding, b: Binding, c: Binding, d: Binding, e: Binding, f: Binding, w: Where)
    ensures Delete([a, b, c, d, e, f], w) == Delete([a, b, c], w) + Delete([d, e, f], w)
  {
    DeleteAppend([a, b, c], [d, e, f], w);
    assert [a, b, c] + [d, e, f] == [a, b, c, d, e, f];
  }

  /** The rows the first removal of the binding tests leaves in the table. */
  lemma RemoveQueueRows(a: Binding, b: Binding, c: Binding, d: Binding, e: Binding, f: Binding, q: string)
    requires a.queueName == d.queueName == q
    requires b.queueName != q && c.queueName != q && e.queueName != q && f.queueName != q
    ensures Delete([a, b, c, d, e, f], QueueIs(q)) == [b, c, e, f]
  {
    DeleteFirstOfThree(a, b, c, QueueIs(q));
    DeleteFirstOfThree(d, e, f, QueueIs(q));
    DeleteSixByHalves(a, b, c, d, e, f, QueueIs(q));
  }

  /** The rows the second removal of the binding tests leaves in the table. */
  lemma RemoveExchangeRows(a: Binding, b: Binding, c: Binding, d: Binding, x: string)
    requires a.exchangeName == b.exchangeName == x && c.exchangeName != x && d.exchangeName != x
    ensures Delete([a, b, c, d], ExchangeIs(x)) == [c, d]
  {
    DeleteNone([c, d], ExchangeIs(x));
    DeleteCons(b, [c, d], ExchangeIs(x));
    assert [b] + [c, d] == [b, c, d];
    DeleteCons(a, [b, c, d], ExchangeIs(x));
    assert [a] + [b, c, d] == [a, b, c, d];
  }

  /** The rows the third removal of the binding tests leaves in the table. */
  lemma RemovePairRows(a: Binding, b: Binding, x: string, y: string)
    requires !Hits(PairIs(x, y), a) && b.exchangeName == x && b.queueName == y
    ensures Delete([a, b], PairIs(x, y)) == [a]
  {
    DeleteCons(b, [], PairIs(x, y));
    DeleteCons(a, [b], PairIs(x, y));
    assert [a] + [b] == [a, b];
  }

  /** The first removal of the binding tests: the first queue goes everywhere. */
  method RemoveQueueStep(m: BindingManager, e1: string, e2: string, q1: string, q2: string, q3: string, keys: seq<string>)
    requires e1 != e2 && q1 != q2 && q1 != q3 && q2 != q3 && |keys| == 6
    requires m.bindings == SixBindings(e1, e2, q1, q2, q3, keys)
    requires m.table == [Binding(e1, q1, keys[0]), Binding(e1, q2, keys[1]), Binding(e1, q3, keys[2]),
                         Binding(e2, q1, keys[3]), Binding(e2, q2, keys[4]), Binding(e2, q3, keys[5])]
    modifies m
    ensures m.bindings == map[e1 := map[q2 := Binding(e1, q2, keys[1]), q3 := Binding(e1, q3, keys[2])],
                              e2 := map[q2 := Binding(e2, q2, keys[4]), q3 := Binding(e2, q3, keys[5])]]
    ensures m.table == [Binding(e1, q2, keys[1]), Binding(e1, q3, keys[2]), Binding(e2, q2, keys[4]), Binding(e2, q3, keys[5])]
  {
    m.UnbindQueue(q1);
    RemoveFirstQueue(e1, e2, q1, q2, q3, keys);
    RemoveQueueRows(Binding(e1, q1, keys[0]), Binding(e1, q2, keys[1]), Binding(e1, q3, keys[2]),
                    Binding(e2, q1, keys[3]), Binding(e2, q2, keys[4]), Binding(e2, q3, keys[5]), q1);
  }

  /** The second removal of the binding tests: the first exchange goes. */
  method RemoveExchangeStep(m: BindingManager, e1: string, e2: string, q2: string, q3: string, keys: seq<string>)
    requires e1 != e2 && q2 != q3 && |keys| == 6
    requires m.bindings == map[e1 := map[q2 := Binding(e1, q2, keys[1]), q3 := Binding(e1, q3, keys[2])],
                               e2 := map[q2 := Binding(e2, q2, keys[4]), q3 := Binding(e2, q3, keys[5])]]
    requires m.table == [Binding(e1, q2, keys[1]), Binding(e1, q3, keys[2]), Binding(e2, q2, keys[4]), Binding(e2, q3, keys[5])]
    modifies m
    ensures m.bindings == map[e2 := map[q2 := Binding(e2, q2, keys[4]), q3 := Binding(e2, q3, keys[5])]]
    ensures m.table == [Binding(e2, q2, keys[4]), Binding(e2, q3, keys[5])]
  {
    m.UnbindExchange(e1);
    RemoveExchangeRows(Binding(e1, q2, keys[1]), Binding(e1, q3, keys[2]), Binding(e2, q2, keys[4]), Binding(e2, q3, keys[5]), e1);
  }

  /** The third removal of the binding tests: the pair (e2, q3) goes. */
  method RemovePairStep(m: BindingManager, e2: string, q2: string, q3: string, keys: seq<string>)
    requires q2 != q3 && |keys| == 6
    requires m.bindings == map[e2 := map[q2 := Binding(e2, q2, keys[4]), q3 := Binding(e2, q3, keys[5])]]
    requires m.table == [Binding(e2, q2, keys[4]), Binding(e2, q3, keys[5])]
    modifies m
    ensures m.bindings == map[e2 := map[q2 := Binding(e2, q2, keys[4])]]
    ensures m.table == [Binding(e2, q2, keys[4])]
  {
    m.Unbind(e2, q3);
    RemovePairRows(Binding(e2, q2, keys[4]), Binding(e2, q3, keys[5]), e2, q3);
    assert m.bindings[e2] == map[q2 := Binding(e2, q2, keys[4])];
  }

  /** The remove tests of binding_test.cc on the six bindings: only (e2, q2) is left,
      in memory and in the table. */
  method RemoveSteps(e1: string, e2: string, q1: string, q2: string, q3: string, keys: seq<string>)
    returns (m: BindingManager)
    requires e1 != e2 && q1 != q2 && q1 != q3 && q2 != q3 && |keys| == 6
    ensures fresh(m)
    ensures m.bindings == map[e2 := map[q2 := Binding(e2, q2, keys[4])]]
    ensures m.table == [Binding(e2, q2, keys[4])]
  {
    m := BindSix(e1, e2, q1, q2, q3, keys);
    RemoveQueueStep(m, e1, e2, q1, q2, q3, keys);
    RemoveExchangeStep(m, e1, e2, q2, q3, keys);
    RemovePairStep(m, e2, q2, q3, keys);
  }

  /** The remove tests of binding_test.cc, then the restart of its recovery test: of
      the six pairs only (e2, q2) exists, before and after the restart, which counts
      one binding. */
  method BindingRemoveScenario(e1: string, e2: string, q1: string, q2: string, q3: string, keys: seq<string>)
    returns (left: seq<bool>, recovered: seq<bool>, size: nat)
    requires e1 != e2 && q1 != q2 && q1 != q3 && q2 != q3 && |keys| == 6
    ensures left == [false, false, false, false, true, false]
    ensures recovered == [false, false, false, false, true, false]
    ensures size == 1
  {
    var m := RemoveSteps(e1, e2, q1, q2, q3, keys);
    left := ExistsAll(m, e1, e2, q1, q2, q3);
    var restarted := new BindingManager(m.table);
    assert restarted.bindings == map[e2 := map[q2 := Binding(e2, q2, keys[4])]];
    recovered := ExistsAll(restarted, e1, e2, q1, q2, q3);
    size := restarted.Size();
    CountRemove(restarted.bindings, e2);
    assert restarted.bindings - {e2} == map[];
    CountEmpty();
  }

  /** exists for the six pairs, exchange by exchange. */
  method ExistsAll(m: BindingManager, e1: string, e2: string, q1: string, q2: string, q3: string) returns (r: seq<bool>)
    ensures r == [Entry(m.bindings, e1, q1).Some?, Entry(m.bindings, e1, q2).Some?, Entry(m.bindings, e1, q3).Some?,
                  Entry(m.bindings, e2, q1).Some?, Entry(m.bindings, e2, q2).Some?, Entry(m.bindings, e2, q3).Some?]
  {
    var a := m.Exists(e1, q1);
    var b := m.Exists(e1, q2);
    var c := m.Exists(e1, q3);
    var d := m.Exists(e2, q1);
    var f := m.Exists(e2, q2);
    var g := m.Exists(e2, q3);
    r := [a, b, c, d, f, g];
  }
}
