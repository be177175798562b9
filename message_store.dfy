// queue_message and message_manager (mqserver/message.hpp): the in-memory side
// of a queue's messages over its log. Messages are values here: the source
// shares one message object between the pending list, the wait-ack map and the
// durable map, and updates its place in the log through the durable map; the
// model keeps that place in the durable map, which is where every read of it
// goes.

module MessageStore {
  import opened Wrappers
  import opened Codec
  import opened Mapper

  // ---------------------------------------------------------------------------
  // The durable map as a function of the log
  // ---------------------------------------------------------------------------

  /** The records marked valid, by id; a later record with the same id wins. */
  function Index(ms: seq<Message>): (d: map<string, Message>)
  {
    if |ms| == 0 then map[]
    else
      var rest := Index(ms[..|ms| - 1]);
      if Last(ms).payload.valid then rest[Last(ms).Id() := Last(ms)] else rest
  }

  /** No two records marked valid share an id. */
  ghost predicate UniqueValid(ms: seq<Message>)
  {
    forall i, j :: 0 <= i < j < |ms| && ms[i].payload.valid && ms[j].payload.valid ==> ms[i].Id() != ms[j].Id()
  }

  /** No two payloads share an id. */
  ghost predicate DistinctIds(ps: seq<Payload>)
  {
    forall i, j :: 0 <= i < j < |ps| ==> ps[i].props.id != ps[j].props.id
  }

  lemma IndexSnoc(ms: seq<Message>, m: Message)
    ensures Index(ms + [m]) == if m.payload.valid then Index(ms)[m.Id() := m] else Index(ms)
  {
    assert (ms + [m])[..|ms|] == ms;
  }

  lemma UniqueValidPrefix(ms: seq<Message>, n: nat)
    requires UniqueValid(ms) && n <= |ms|
    ensures UniqueValid(ms[..n])
  {
    assert forall i :: 0 <= i < n ==> ms[..n][i] == ms[i];
  }

  /** Every entry of the index is a valid record of its id. */
  lemma {:induction false} IndexWitness(ms: seq<Message>, id: string) returns (k: nat)
    requires id in Index(ms)
    ensures k < |ms| && ms[k] == Index(ms)[id] && ms[k].payload.valid && ms[k].Id() == id
    decreases |ms|
  {
    var init := ms[..|ms| - 1];
    if Last(ms).payload.valid && Last(ms).Id() == id {
      k := |ms| - 1;
    } else {
      k := IndexWitness(init, id);
    }
  }

  /** Every valid record is the entry of its id, when valid ids are unique. */
  lemma {:induction false} IndexHas(ms: seq<Message>, k: nat)
    requires UniqueValid(ms) && k < |ms| && ms[k].payload.valid
    ensures ms[k].Id() in Index(ms) && Index(ms)[ms[k].Id()] == ms[k]
    decreases |ms|
  {
    if k < |ms| - 1 {
      var init := ms[..|ms| - 1];
      UniqueValidPrefix(ms, |ms| - 1);
      IndexHas(init, k);
      assert init[k] == ms[k];
    }
  }

  /** An id that is not in the index belongs to no valid record. */
  lemma NotIndexed(ms: seq<Message>, id: string)
    requires UniqueValid(ms) && id !in Index(ms)
    ensures forall k :: 0 <= k < |ms| && ms[k].payload.valid ==> ms[k].Id() != id
  {
    forall k | 0 <= k < |ms| && ms[k].payload.valid
      ensures ms[k].Id() != id
    {
      IndexHas(ms, k);
    }
  }

  /** Appending a valid record of a new id enters it in the index. */
  lemma IndexAppend(ms: seq<Message>, m: Message)
    requires UniqueValid(ms) && m.payload.valid && m.Id() !in Index(ms)
    ensures UniqueValid(ms + [m])
    ensures Index(ms + [m]) == Index(ms)[m.Id() := m]
  {
    IndexSnoc(ms, m);
    NotIndexed(ms, m.Id());
    var ms' := ms + [m];
    forall i, j | 0 <= i < j < |ms'| && ms'[i].payload.valid && ms'[j].payload.valid
      ensures ms'[i].Id() != ms'[j].Id()
    {
      assert ms'[i] == ms[i];
      if j < |ms| {
        assert ms'[j] == ms[j];
      }
    }
  }

  /** Clearing the flag of a valid record takes its id out of the index. */
  lemma IndexInvalidate(ms: seq<Message>, k: nat)
    requires UniqueValid(ms) && k < |ms| && ms[k].payload.valid
    ensures var ms' := ms[k := ms[k].(payload := ms[k].payload.(valid := false))];
      UniqueValid(ms') && Index(ms') == Index(ms) - {ms[k].Id()}
  {
    var ms' := ms[k := ms[k].(payload := ms[k].payload.(valid := false))];
    assert UniqueValid(ms');
    forall id | id in Index(ms')
      ensures id in Index(ms) && id != ms[k].Id() && Index(ms')[id] == Index(ms)[id]
    {
      var j := IndexWitness(ms', id);
      assert j != k && ms'[j] == ms[j];
      IndexHas(ms, j);
    }
    forall id | id in Index(ms) && id != ms[k].Id()
      ensures id in Index(ms')
    {
      var j := IndexWitness(ms, id);
      assert j != k && ms'[j] == ms[j];
      IndexHas(ms', j);
    }
    assert Index(ms') == Index(ms) - {ms[k].Id()};
  }

  /** With unique valid ids the index has one entry per valid record. */
  lemma {:induction false} IndexSize(ms: seq<Message>)
    requires UniqueValid(ms)
    ensures |Index(ms)| == |Kept(ms)|
    decreases |ms|
  {
    if |ms| > 0 {
      var init := ms[..|ms| - 1];
      var m := Last(ms);
      assert ms == init + [m];
      UniqueValidPrefix(ms, |ms| - 1);
      IndexSize(init);
      KeptSnoc(init, m);
      if m.payload.valid {
        if m.Id() in Index(init) {
          var j := IndexWitness(init, m.Id());
          assert false;
        }
      }
    }
  }

  /** Each kept payload is the payload of its id's entry, when valid ids are unique. */
  lemma {:induction false} KeptIndexed(ms: seq<Message>, j: nat)
    requires UniqueValid(ms) && j < |Kept(ms)|
    ensures Kept(ms)[j].props.id in Index(ms) && Index(ms)[Kept(ms)[j].props.id].payload == Kept(ms)[j]
    decreases |ms|
  {
    var init := ms[..|ms| - 1];
    var m := Last(ms);
    assert ms == init + [m];
    UniqueValidPrefix(ms, |ms| - 1);
    KeptSnoc(init, m);
    IndexSnoc(init, m);
    if j < |Kept(init)| {
      KeptIndexed(init, j);
      if m.payload.valid && m.Id() == Kept(init)[j].props.id {
        var i := IndexWitness(init, m.Id());
        assert false;
      }
    }
  }

  /** The kept payloads of records with unique valid ids have distinct ids. */
  lemma KeptDistinct(ms: seq<Message>)
    requires UniqueValid(ms)
    ensures DistinctIds(Kept(ms))
  {
    var ks := Kept(ms);
    forall i, j | 0 <= i < j < |ks|
      ensures ks[i].props.id != ks[j].props.id
    {
      KeptOrder(ms, i, j);
    }
  }

  /** Two kept payloads come from two different valid records. */
  lemma {:induction false} KeptOrder(ms: seq<Message>, i: nat, j: nat)
    requires UniqueValid(ms) && i < j < |Kept(ms)|
    ensures Kept(ms)[i].props.id != Kept(ms)[j].props.id
    decreases |ms|
  {
    var init := ms[..|ms| - 1];
    var m := Last(ms);
    assert ms == init + [m];
    UniqueValidPrefix(ms, |ms| - 1);
    KeptSnoc(init, m);
    if j < |Kept(init)| {
      KeptOrder(init, i, j);
    } else {
      KeptIndexed(init, i);
      if m.Id() == Kept(init)[i].props.id {
        var w := IndexWitness(init, m.Id());
        assert false;
      }
    }
  }

  /** Records all marked valid: each is kept. */
  ghost predicate AllValid(ms: seq<Message>)
  {
    forall j :: 0 <= j < |ms| ==> ms[j].payload.valid
  }

  lemma {:induction false} KeptAllValid(ms: seq<Message>)
    requires AllValid(ms)
    ensures |Kept(ms)| == |ms|
    decreases |ms|
  {
    if |ms| > 0 {
      var init := ms[..|ms| - 1];
      assert AllValid(init) by {
        assert forall j :: 0 <= j < |init| ==> init[j] == ms[j];
      }
      KeptAllValid(init);
    }
  }

  /** The records still marked valid, in log order, each where it is. */
  function ValidRecords(ms: seq<Message>): (vs: seq<Message>)
    ensures AllValid(vs)
  {
    if |ms| == 0 then []
    else ValidRecords(ms[..|ms| - 1]) + (if Last(ms).payload.valid then [Last(ms)] else [])
  }

  /** The valid records carry the kept payloads, one each, and index as the
      whole log does. */
  lemma {:induction false} ValidRecordsKept(ms: seq<Message>)
    ensures |ValidRecords(ms)| == |Kept(ms)|
    ensures forall i :: 0 <= i < |Kept(ms)| ==> ValidRecords(ms)[i].payload == Kept(ms)[i]
    ensures Index(ValidRecords(ms)) == Index(ms)
    decreases |ms|
  {
    if |ms| > 0 {
      var init := ms[..|ms| - 1];
      var m := Last(ms);
      ValidRecordsKept(init);
      assert ms == init + [m];
      IndexSnoc(init, m);
      if m.payload.valid {
        assert ValidRecords(ms) == ValidRecords(init) + [m];
        IndexSnoc(ValidRecords(init), m);
      } else {
        assert ValidRecords(ms) == ValidRecords(init);
      }
    }
  }

  /** A valid record's payload is among the kept ones. */
  lemma {:induction false} KeptOf(ms: seq<Message>, i: nat) returns (k: nat)
    requires i < |ms| && ms[i].payload.valid
    ensures k < |Kept(ms)| && Kept(ms)[k] == ms[i].payload
    decreases |ms|
  {
    var init := ms[..|ms| - 1];
    if i == |ms| - 1 {
      k := |Kept(init)|;
    } else {
      k := KeptOf(init, i);
      assert init[i] == ms[i];
    }
  }

  /** The converse of KeptDistinct: kept payloads with distinct ids come from
      records with unique valid ids. */
  lemma {:induction false} UniqueFromKept(ms: seq<Message>)
    requires DistinctIds(Kept(ms))
    ensures UniqueValid(ms)
    decreases |ms|
  {
    if |ms| > 0 {
      var init := ms[..|ms| - 1];
      var n := |ms| - 1;
      assert DistinctIds(Kept(init)) by {
        assert forall i :: 0 <= i < |Kept(init)| ==> Kept(ms)[i] == Kept(init)[i];
      }
      UniqueFromKept(init);
      forall i, j | 0 <= i < j < |ms| && ms[i].payload.valid && ms[j].payload.valid
        ensures ms[i].Id() != ms[j].Id()
      {
        assert ms[i] == init[i];
        if j == n {
          var k := KeptOf(init, i);
          assert Kept(ms)[k] == init[i].payload && Kept(ms)[|Kept(init)|] == ms[j].payload;
        } else {
          assert ms[j] == init[j];
        }
      }
    }
  }

  /** The placed messages of payloads with distinct ids, all marked valid, have
      unique valid ids. */
  lemma PlacedUnique(ps: seq<Payload>)
    requires AllFit(ps) && DistinctIds(ps) && forall j :: 0 <= j < |ps| ==> ps[j].valid
    ensures AllValid(Placed(ps)) && UniqueValid(Placed(ps))
    ensures forall j :: 0 <= j < |ps| ==> Placed(ps)[j].payload == ps[j]
  {
    forall j | 0 <= j < |ps|
      ensures Placed(ps)[j].payload == ps[j]
    {
      PlacedPayloads([], ps, j);
    }
  }

  /** The patch loop of gc: a message whose id is not in the durable map is
      queued again and entered; the entry of any other takes its new place. */
  function Patch(durable: map<string, Message>, pending: seq<Message>, ms: seq<Message>): (r: (map<string, Message>, seq<Message>))
  {
    if |ms| == 0 then (durable, pending)
    else
      var (d, p) := Patch(durable, pending, ms[..|ms| - 1]);
      var m := Last(ms);
      if m.Id() !in d then (d[m.Id() := m], p + [m])
      else (d[m.Id() := d[m.Id()].(offset := m.offset, length := m.length)], p)
  }

  /** Patching with valid messages of unique ids, each already entered with its
      payload, moves every entry to its message's place and queues nothing. */
  lemma {:induction false} PatchRelocates(d: map<string, Message>, pending: seq<Message>, ms: seq<Message>)
    requires AllValid(ms) && UniqueValid(ms)
    requires forall j :: 0 <= j < |ms| ==> ms[j].Id() in d && d[ms[j].Id()].payload == ms[j].payload
    ensures Patch(d, pending, ms) == (d + Index(ms), pending)
    decreases |ms|
  {
    if |ms| == 0 {
      assert d + map[] == d;
    } else {
      var init := ms[..|ms| - 1];
      var m := Last(ms);
      assert ms == init + [m];
      assert forall j :: 0 <= j < |init| ==> init[j] == ms[j];
      UniqueValidPrefix(ms, |ms| - 1);
      PatchRelocates(d, pending, init);
      var d1 := d + Index(init);
      if m.Id() in Index(init) {
        var w := IndexWitness(init, m.Id());
        assert false;
      }
      assert d1[m.Id()] == d[m.Id()];
      assert d1[m.Id()].(offset := m.offset, length := m.length) == m;
      IndexSnoc(init, m);
      assert d1[m.Id() := m] == d + Index(ms);
    }
  }

  lemma SubsetSameSize<T>(a: set<T>, b: set<T>)
    requires a <= b && |a| == |b|
    ensures a == b
  {
    if a != b {
      var x :| x in b && x !in a;
      assert a <= b - {x};
      assert |b - {x}| == |b| - 1;
      SubsetSize(a, b - {x});
    }
  }

  lemma {:induction false} SubsetSize<T>(a: set<T>, b: set<T>)
    requires a <= b
    ensures |a| <= |b|
    decreases |b|
  {
    if a != {} {
      var x :| x in a;
      SubsetSize(a - {x}, b - {x});
    }
  }

  /** After a successful compaction the patch loop relocates every durable entry
      to its record in the rebuilt log: the map becomes the index of that log,
      with the same ids, and no message is queued again. */
  lemma GcRelocates(records: seq<Message>, pending: seq<Message>)
    requires UniqueValid(records) && AllFit(Kept(records))
    ensures var ms := Placed(Kept(records));
      AllValid(ms) && UniqueValid(ms) &&
      Patch(Index(records), pending, ms) == (Index(ms), pending) &&
      Index(ms).Keys == Index(records).Keys &&
      |ms| == |Index(records)|
  {
    var ks := Kept(records);
    var ms := Placed(ks);
    var d := Index(records);
    KeptDistinct(records);
    PlacedUnique(ks);
    forall j | 0 <= j < |ms|
      ensures ms[j].Id() in d && d[ms[j].Id()].payload == ms[j].payload
    {
      KeptIndexed(records, j);
    }
    PatchRelocates(d, pending, ms);
    IndexSize(records);
    IndexSize(ms);
    KeptAllValid(ms);
    forall id | id in Index(ms)
      ensures id in d
    {
      var j := IndexWitness(ms, id);
    }
    SubsetSameSize(Index(ms).Keys, d.Keys);
    assert d + Index(ms) == Index(ms);
  }

  /** The insert loop of recovery: unordered_map::insert keeps an existing entry. */
  function Entered(durable: map<string, Message>, ms: seq<Message>): (d: map<string, Message>)
  {
    if |ms| == 0 then durable
    else
      var d := Entered(durable, ms[..|ms| - 1]);
      if Last(ms).Id() in d then d else d[Last(ms).Id() := Last(ms)]
  }

  /** Entering valid messages of unique ids into an empty map indexes them. */
  lemma {:induction false} EnteredIndex(ms: seq<Message>)
    requires AllValid(ms) && UniqueValid(ms)
    ensures Entered(map[], ms) == Index(ms)
    decreases |ms|
  {
    if |ms| > 0 {
      var init := ms[..|ms| - 1];
      assert forall j :: 0 <= j < |init| ==> init[j] == ms[j];
      UniqueValidPrefix(ms, |ms| - 1);
      EnteredIndex(init);
      if Last(ms).Id() in Index(init) {
        var w := IndexWitness(init, Last(ms).Id());
        assert false;
      }
    }
  }

  // ---------------------------------------------------------------------------
  // The state of a queue's messages
  // ---------------------------------------------------------------------------

  predicate IsDurable(m: Message)
  {
    m.payload.props.mode == Durable
  }

  /** The ids of the pending messages. */
  ghost function PendingIds(pending: seq<Message>): (ids: set<string>)
  {
    set i | 0 <= i < |pending| :: pending[i].Id()
  }

  /** UniqueValid, record by record: each valid record's id is new to the
      index of the records before it. */
  ghost predicate UniqueIndexed(ms: seq<Message>)
  {
    |ms| == 0 ||
    (UniqueIndexed(ms[..|ms| - 1]) && (Last(ms).payload.valid ==> Last(ms).Id() !in Index(ms[..|ms| - 1])))
  }

  lemma {:induction false} UniqueIndexedValid(ms: seq<Message>)
    ensures UniqueIndexed(ms) <==> UniqueValid(ms)
    decreases |ms|
  {
    if |ms| > 0 {
      var init := ms[..|ms| - 1];
      var n := |ms| - 1;
      assert forall i :: 0 <= i < n ==> init[i] == ms[i];
      UniqueIndexedValid(init);
      if UniqueValid(ms) {
        UniqueValidPrefix(ms, n);
        if Last(ms).payload.valid && Last(ms).Id() in Index(init) {
          var k := IndexWitness(init, Last(ms).Id());
          assert false;
        }
      }
      if UniqueIndexed(ms) {
        forall i, j | 0 <= i < j < |ms| && ms[i].payload.valid && ms[j].payload.valid
          ensures ms[i].Id() != ms[j].Id()
        {
          if j == n {
            IndexHas(init, i);
          }
        }
      }
    }
  }

  /** A log that frames and decodes completely. */
  predicate Sound(data: seq<Byte>)
  {
    Scan(data, 0).complete && Decodes(data)
  }

  /** The durable map and the counters agree with the records of the log: total
      counts every record, valid counts the durable map, and the durable map is
      the valid records by id. */
  ghost predicate Stored(records: seq<Message>, durable: map<string, Message>, valid: nat, total: nat)
  {
    total == |records| && valid == |durable| && UniqueIndexed(records) && durable == Index(records)
  }

  /** The pending list and the wait-ack map: ids are unique across both, each
      wait-ack entry sits under its id, and the durable ids are exactly the
      durable-mode messages among them. */
  ghost predicate Queued(pending: seq<Message>, keys: set<string>, waitAck: map<string, Message>)
  {
    (forall i, j :: 0 <= i < j < |pending| ==> pending[i].Id() != pending[j].Id()) &&
    (forall i :: 0 <= i < |pending| ==> pending[i].Id() !in waitAck) &&
    (forall id :: id in waitAck ==> waitAck[id].Id() == id) &&
    (forall i :: 0 <= i < |pending| ==> (pending[i].Id() in keys <==> IsDurable(pending[i]))) &&
    (forall id :: id in waitAck ==> (id in keys <==> IsDurable(waitAck[id]))) &&
    keys <= PendingIds(pending) + waitAck.Keys
  }

  /** A message pushed with an id used nowhere keeps the queues consistent. */
  lemma QueuedPush(pending: seq<Message>, keys: set<string>, waitAck: map<string, Message>, m: Message,
                   keys': set<string>)
    requires Queued(pending, keys, waitAck)
    requires m.Id() !in keys && m.Id() !in waitAck && m.Id() !in PendingIds(pending)
    requires forall id :: id in keys' <==> id in keys || (IsDurable(m) && id == m.Id())
    ensures Queued(pending + [m], keys', waitAck)
  {
    var p := pending + [m];
    assert forall i :: 0 <= i < |pending| ==> p[i] == pending[i];
    assert PendingIds(p) == PendingIds(pending) + {m.Id()} by {
      assert p[|pending|] == m;
    }
  }

  /** Moving the head of the pending list to the wait-ack map keeps the queues
      consistent. */
  lemma QueuedFront(pending: seq<Message>, keys: set<string>, waitAck: map<string, Message>)
    requires Queued(pending, keys, waitAck) && |pending| > 0
    ensures pending[0].Id() !in waitAck
    ensures Queued(pending[1..], keys, waitAck[pending[0].Id() := pending[0]])
  {
    var m := pending[0];
    var p := pending[1..];
    assert forall i :: 0 <= i < |p| ==> p[i] == pending[i + 1];
    assert PendingIds(pending) == PendingIds(p) + {m.Id()} by {
      forall id | id in PendingIds(pending)
        ensures id in PendingIds(p) + {m.Id()}
      {
        var i :| 0 <= i < |pending| && pending[i].Id() == id;
        if i > 0 {
          assert p[i - 1] == pending[i];
        }
      }
    }
  }

  /** Dropping an acknowledged id from the wait-ack map, and from the durable
      ids, keeps the queues consistent. */
  lemma QueuedAck(pending: seq<Message>, keys: set<string>, waitAck: map<string, Message>, id: string)
    requires Queued(pending, keys, waitAck) && id in waitAck
    ensures Queued(pending, keys - {id}, waitAck - {id})
  {
    assert forall i :: 0 <= i < |pending| ==> pending[i].Id() != id;
  }

  /** A durable insert appends a record and enters it under its new id. */
  lemma StoredAppend(data: seq<Byte>, durable: map<string, Message>, valid: nat, total: nat, p: Payload,
                     data': seq<Byte>, m: Message)
    requires Sound(data) && Stored(Records(data), durable, valid, total)
    requires Fits(p) && p.valid && p.props.id !in durable
    requires data' == data + Frame(Serialize(p)) && m == Message(p, |data| + WordSize, |Serialize(p)|)
    ensures Sound(data') && Stored(Records(data'), durable[p.props.id := m], valid + 1, total + 1)
  {
    RecordsAppend(data, p);
    UniqueIndexedValid(Records(data));
    IndexAppend(Records(data), m);
    UniqueIndexedValid(Records(data) + [m]);
  }

  /** size_t decrement, wrapping below zero. */
  function Dec(n: nat): (r: nat)
    ensures n > 0 ==> r == n - 1
    ensures n == 0 ==> r == WordLimit - 1
  {
    if n == 0 then WordLimit - 1 else n - 1
  }

  /** Acknowledging a durable message clears the flag of its record in place and
      takes it out of the durable map; the record stays in the log. */
  lemma StoredAck(f: File, durable: map<string, Message>, valid: nat, total: nat, id: string)
    requires Sound(Contents(f)) && Stored(Records(Contents(f)), durable, valid, total) && id in durable
    ensures Invalidate(f, durable[id], true).0
    ensures var data' := Contents(Invalidate(f, durable[id], true).1);
      Sound(data') && Stored(Records(data'), durable - {id}, Dec(valid), total)
  {
    var records := Records(Contents(f));
    var k := IndexWitness(records, id);
    UniqueIndexedValid(records);
    RecordsInvalidate(f, k);
    IndexInvalidate(records, k);
    UniqueIndexedValid(records[k := records[k].(payload := records[k].payload.(valid := false))]);
  }

  /** Under a consistent queue, compaction keeps exactly the durable messages,
      and patching the durable map with their new places yields the index of the
      rebuilt log. */
  lemma StoredGc(data: seq<Byte>, durable: map<string, Message>, valid: nat, total: nat, pending: seq<Message>)
    requires Sound(data) && Stored(Records(data), durable, valid, total)
    ensures var ps := Kept(Records(data));
      LoadFrom(data, 0) == (true, ps) && AllFit(ps) && |ps| == valid
    ensures var ms := Placed(Kept(Records(data)));
      var log := LogOf(Kept(Records(data)));
      Sound(log) && Records(log) == ms &&
      Patch(durable, pending, ms) == (Index(ms), pending) &&
      Stored(ms, Index(ms), |ms|, |ms|) && Index(ms).Keys == durable.Keys
  {
    var records := Records(data);
    var ps := Kept(records);
    LoadAll(data);
    LoadFits(data, 0);
    RecordsLogOf(ps);
    UniqueIndexedValid(records);
    GcRelocates(records, pending);
    UniqueIndexedValid(Placed(ps));
  }

  /** What recovery needs of the loaded messages: unique ids, all durable. */
  ghost predicate Recoverable(ps: seq<Payload>)
  {
    DistinctIds(ps) && forall j :: 0 <= j < |ps| ==> ps[j].props.mode == Durable
  }

  /** Recovery from a log whose messages are recoverable: the rebuilt log is
      consistent with the entered map, and the queue of all its messages. */
  lemma StoredRecovery(ps: seq<Payload>, data: seq<Byte>, ms: seq<Message>, d: map<string, Message>)
    requires AllFit(ps) && Recoverable(ps) && forall j :: 0 <= j < |ps| ==> ps[j].valid
    requires data == LogOf(ps) && ms == Placed(ps) && d == Entered(map[], ms)
    ensures Sound(data) && Stored(Records(data), d, |ms|, |ms|) && Queued(ms, d.Keys, map[])
  {
    RecordsLogOf(ps);
    PlacedUnique(ps);
    assert forall j :: 0 <= j < |ms| ==> IsDurable(ms[j]) by {
      forall j | 0 <= j < |ms|
        ensures IsDurable(ms[j])
      {
        assert ms[j].payload == ps[j];
      }
    }
    EnteredValid(ms);
    assert Records(data) == ms && d == Index(ms);
    QueuedAll(ms);
  }

  /** Valid messages with unique ids entered into an empty map: their index,
      one entry per message. */
  lemma EnteredValid(ms: seq<Message>)
    requires AllValid(ms) && UniqueValid(ms)
    ensures Entered(map[], ms) == Index(ms) && UniqueIndexed(ms) && |Index(ms)| == |ms|
  {
    EnteredIndex(ms);
    UniqueIndexedValid(ms);
    IndexSize(ms);
    KeptAllValid(ms);
  }

  /** A queue of valid durable messages with unique ids, all pending, and their
      index as the durable map. */
  lemma QueuedAll(ms: seq<Message>)
    requires AllValid(ms) && UniqueValid(ms) && forall j :: 0 <= j < |ms| ==> IsDurable(ms[j])
    ensures Queued(ms, Index(ms).Keys, map[])
  {
    forall j | 0 <= j < |ms|
      ensures ms[j].Id() in Index(ms)
    {
      IndexHas(ms, j);
    }
    forall id | id in Index(ms)
      ensures id in PendingIds(ms)
    {
      var j := IndexWitness(ms, id);
    }
  }

  /** gc_check: more than 2000 records, fewer than half of them valid. */
  predicate GcCheck(valid: nat, total: nat)
  {
    total > 2000 && 2 * valid < total
  }

  lemma Scale(a: real, b: real, t: real)
    requires a < b && t > 0.0
    ensures a * t < b * t
  {
  }

  lemma ScaleAtMost(a: real, b: real, t: real)
    requires a <= b && t > 0.0
    ensures a * t <= b * t
  {
  }

  /** gc_check is the ratio test of the source, computed exactly. */
  lemma GcCheckRatio(valid: nat, total: nat)
    ensures GcCheck(valid, total) <==> total > 2000 && (valid as real) / (total as real) < 0.5
  {
    if total > 2000 {
      var v, t := valid as real, total as real;
      var r := v / t;
      assert r * t == v;
      if r < 0.5 {
        Scale(r, 0.5, t);
      } else {
        ScaleAtMost(0.5, r, t);
      }
    }
  }

  lemma SoundEmpty()
    ensures Sound([]) && Records([]) == []
  {
    assert Scan([], 0) == ScanResult(true, []);
    assert Decoded([]) == Some([]);
  }

  /** The envelope insert builds: the caller's properties when given, otherwise
      a fresh id and an empty routing key; a queue that is not durable forces
      the message to be undurable; only durable messages are marked valid. */
  function Envelope(bp: Option<Properties>, body: string, queueDurable: bool, uuid: string): (p: Payload)
    ensures !queueDurable ==> p.props.mode == Undurable
    ensures queueDurable && bp.None? ==> p.props.mode == Durable
    ensures queueDurable && bp.Some? ==> p.props.mode == bp.value.mode
    ensures p.props.id == (if bp.Some? then bp.value.id else uuid)
    ensures p.props.routingKey == (if bp.Some? then bp.value.routingKey else "")
    ensures p.body == body && (p.valid <==> p.props.mode == Durable)
  {
    var mode := if !queueDurable then Undurable else if bp.Some? then bp.value.mode else Durable;
    var props := if bp.Some? then Properties(bp.value.id, mode, bp.value.routingKey) else Properties(uuid, mode, "");
    Payload(props, body, mode == Durable)
  }

  /** The patch loop of gc. */
  method PatchAll(durable: map<string, Message>, pending: seq<Message>, ms: seq<Message>)
    returns (d: map<string, Message>, p: seq<Message>)
    ensures (d, p) == Patch(durable, pending, ms)
  {
    d, p := durable, pending;
    var i := 0;
    while i < |ms|
      invariant i <= |ms|
      invariant (d, p) == Patch(durable, pending, ms[..i])
    {
      var m := ms[i];
      assert ms[..i + 1][..i] == ms[..i];
      if m.Id() !in d {
        p := p + [m];
        d := d[m.Id() := m];
      } else {
        d := d[m.Id() := d[m.Id()].(offset := m.offset, length := m.length)];
      }
      i := i + 1;
    }
    assert ms[..i] == ms;
  }

  /** The insert loop of recovery. */
  method EnterAll(durable: map<string, Message>, ms: seq<Message>) returns (d: map<string, Message>)
    ensures d == Entered(durable, ms)
  {
    d := durable;
    var i := 0;
    while i < |ms|
      invariant i <= |ms|
      invariant d == Entered(durable, ms[..i])
    {
      var m := ms[i];
      if m.Id() !in d {
        d := d[m.Id() := m];
      }
      assert ms[..i + 1][..i] == ms[..i];
      i := i + 1;
    }
    assert ms[..i] == ms;
  }

  // ---------------------------------------------------------------------------
  // queue_message as a value: each operation as a function of the state
  // ---------------------------------------------------------------------------

  /** The fields of a queue_message. */
  datatype QueueState = QueueState(log: LogFiles, pending: seq<Message>, durable: map<string, Message>,
                                   waitAck: map<string, Message>, valid: nat, total: nat)

  /** The log decodes and agrees with the durable map and the counters. */
  ghost predicate LogGood(s: QueueState)
  {
    Sound(Contents(s.log.data)) && Stored(Records(Contents(s.log.data)), s.durable, s.valid, s.total)
  }

  /** The invariant of a queue. */
  ghost predicate Good(s: QueueState)
  {
    LogGood(s) && Queued(s.pending, s.durable.Keys, s.waitAck)
  }

  /** An id that no message of the queue carries. */
  ghost predicate Unused(s: QueueState, id: string)
  {
    id !in s.durable && id !in s.waitAck && id !in PendingIds(s.pending)
  }

  /** The counters of a consistent queue: total counts the records of its log,
      valid the durable messages not yet acknowledged, which are the records
      still marked valid. */
  lemma Counts(s: QueueState)
    requires Good(s)
    ensures s.total == |Records(Contents(s.log.data))|
    ensures s.valid == |s.durable| == |Kept(Records(Contents(s.log.data)))|
  {
    UniqueIndexedValid(Records(Contents(s.log.data)));
    IndexSize(Records(Contents(s.log.data)));
  }

  /** A new queue: the mapper's constructor makes sure the data file exists. A
      queue over a new or empty data file starts consistent. */
  function Created(files: LogFiles, createOk: bool): (s: QueueState)
    ensures s.pending == [] && s.durable == map[] && s.waitAck == map[] && s.valid == 0 && s.total == 0
    ensures s.log == CreateMsgFile(files, createOk).1
  {
    QueueState(CreateMsgFile(files, createOk).1, [], map[], map[], 0, 0)
  }

  lemma CreateKeeps(files: LogFiles, createOk: bool)
    ensures (files.data.None? && createOk) || files.data == Some([]) ==> Good(Created(files, createOk))
  {
    SoundEmpty();
  }

  /** insert: a durable message is appended to the log before it is queued; a
      failed append fails the insert, and leaves whatever part of the record it
      wrote. An undurable message is only queued. */
  function Inserted(s: QueueState, p: Payload, wordOk: bool, bodyOk: bool): (r: (bool, QueueState))
    requires Fits(p)
    ensures r.0 <==> p.props.mode == Undurable || (s.log.data.Some? && wordOk && bodyOk)
    ensures r.1.waitAck == s.waitAck
    ensures r.0 ==> |r.1.pending| == |s.pending| + 1 && r.1.pending == s.pending + [r.1.pending[|s.pending|]] &&
                    r.1.pending[|s.pending|].payload == p
    ensures !r.0 ==> r.1 == s.(log := r.1.log)
    ensures r.0 && p.props.mode == Durable ==>
      r.1.log.data == Some(Contents(s.log.data) + Frame(Serialize(p))) && r.1.valid == s.valid + 1 &&
      r.1.total == s.total + 1 &&
      r.1.durable == if p.props.id in s.durable then s.durable else s.durable[p.props.id := r.1.pending[|s.pending|]]
    ensures p.props.mode == Undurable ==> r.1 == s.(pending := r.1.pending)
  {
    if p.props.mode == Undurable then (true, s.(pending := s.pending + [Message(p, 0, 0)]))
    else
      var a := Append(s.log.data, p, wordOk, bodyOk);
      var s' := s.(log := s.log.(data := a.file));
      if !a.ok then (false, s')
      else
        (true, s'.(pending := s.pending + [a.msg],
                   durable := if p.props.id in s.durable then s.durable else s.durable[p.props.id := a.msg],
                   valid := s.valid + 1, total := s.total + 1))
  }

  /** An insert keeps a queue consistent, unless the append is torn: the length
      word written and the body not. A durable message enters the durable map. */
  lemma InsertKeeps(s: QueueState, p: Payload, wordOk: bool, bodyOk: bool)
    requires Good(s) && Fits(p) && Unused(s, p.props.id) && (p.valid <==> p.props.mode == Durable)
    requires bodyOk || !wordOk
    ensures Good(Inserted(s, p, wordOk, bodyOk).1)
    ensures Inserted(s, p, wordOk, bodyOk).0 ==> forall id ::
      id in Inserted(s, p, wordOk, bodyOk).1.durable <==> id in s.durable || (p.props.mode == Durable && id == p.props.id)
  {
    var r := Inserted(s, p, wordOk, bodyOk);
    if !r.0 {
      assert r.1 == s;
    } else if p.props.mode == Durable {
      var a := Append(s.log.data, p, wordOk, bodyOk);
      DurableKeeps(s, p, a.msg, r.1);
      assert Good(r.1);
    } else {
      UndurableKeeps(s, p, r.1);
      assert Good(r.1) && r.1.durable == s.durable;
    }
  }

  lemma DurableKeeps(s: QueueState, p: Payload, m: Message, s': QueueState)
    requires Good(s) && Fits(p) && Unused(s, p.props.id) && p.valid && p.props.mode == Durable
    requires m == Message(p, |Contents(s.log.data)| + WordSize, |Serialize(p)|)
    requires s' == QueueState(s.log.(data := Some(Contents(s.log.data) + Frame(Serialize(p)))),
                              s.pending + [m], s.durable[p.props.id := m], s.waitAck, s.valid + 1, s.total + 1)
    ensures Good(s')
  {
    assert LogGood(s') by {
      StoredAppend(Contents(s.log.data), s.durable, s.valid, s.total, p, Contents(s'.log.data), m);
    }
    assert Queued(s'.pending, s'.durable.Keys, s'.waitAck) by {
      QueuedPush(s.pending, s.durable.Keys, s.waitAck, m, s'.durable.Keys);
    }
  }

  lemma UndurableKeeps(s: QueueState, p: Payload, s': QueueState)
    requires Good(s) && Unused(s, p.props.id) && p.props.mode == Undurable
    requires s' == s.(pending := s.pending + [Message(p, 0, 0)])
    ensures Good(s')
  {
    QueuedPush(s.pending, s.durable.Keys, s.waitAck, Message(p, 0, 0), s.durable.Keys);
  }

  /** front: the head of the pending list moves to the wait-ack map. */
  function FrontOf(s: QueueState): (r: (Option<Message>, QueueState))
    ensures s.pending == [] ==> r == (None, s)
    ensures s.pending != [] ==>
      r.0 == Some(s.pending[0]) && r.1.pending == s.pending[1..] &&
      r.1.waitAck == (if s.pending[0].Id() in s.waitAck then s.waitAck else s.waitAck[s.pending[0].Id() := s.pending[0]]) &&
      r.1 == s.(pending := r.1.pending, waitAck := r.1.waitAck)
  {
    if s.pending == [] then (None, s)
    else
      var m := s.pending[0];
      (Some(m), s.(pending := s.pending[1..], waitAck := if m.Id() in s.waitAck then s.waitAck else s.waitAck[m.Id() := m]))
  }

  /** front keeps a queue consistent; the message it hands out now awaits its
      acknowledgement. */
  lemma FrontKeeps(s: QueueState)
    requires Good(s)
    ensures Good(FrontOf(s).1)
    ensures s.pending != [] ==> FrontOf(s).1.waitAck == s.waitAck[s.pending[0].Id() := s.pending[0]]
  {
    if s.pending != [] {
      QueuedFront(s.pending, s.durable.Keys, s.waitAck);
    }
  }

  /** Messages leave in the order they were inserted: an insert does not change
      what front hands out next, unless the queue was empty. */
  lemma InsertFront(s: QueueState, p: Payload, wordOk: bool, bodyOk: bool)
    requires Fits(p) && Inserted(s, p, wordOk, bodyOk).0
    ensures s.pending != [] ==> FrontOf(Inserted(s, p, wordOk, bodyOk).1).0 == FrontOf(s).0
    ensures s.pending == [] ==> FrontOf(Inserted(s, p, wordOk, bodyOk).1).0.value.payload == p
  {
    var q := Inserted(s, p, wordOk, bodyOk).1.pending;
    if s.pending != [] {
      assert q[0] == (s.pending + [q[|s.pending|]])[0];
    }
  }

  /** gc: when gc_check asks for it, the log is compacted; on success each
      durable entry takes the place of its record in the rebuilt log and the
      counters become the number of records kept. */
  function Collected(s: QueueState, createOk: bool, failAt: nat, renameOk: bool): (r: QueueState)
    ensures r.waitAck == s.waitAck
    ensures !GcCheck(s.valid, s.total) ==> r == s
    ensures GcCheck(s.valid, s.total) && !Compacts(s.log.data, createOk, failAt, renameOk) ==>
      r == s.(log := r.log) && r.log.data == s.log.data
  {
    if !GcCheck(s.valid, s.total) then s
    else
      var log := GcFiles(s.log, createOk, failAt, renameOk);
      if Compacts(s.log.data, createOk, failAt, renameOk) then
        var ms := Placed(Loaded(s.log.data));
        var dp := Patch(s.durable, s.pending, ms);
        QueueState(log, dp.1, dp.0, s.waitAck, |ms|, |ms|)
      else s.(log := log)
  }

  /** gc keeps the log consistent, and neither queues a message again nor loses
      one: the pending list and the durable ids stay, and so does the number of
      valid records. A successful compaction leaves only the valid records. */
  lemma CollectKeeps(s: QueueState, createOk: bool, failAt: nat, renameOk: bool)
    requires LogGood(s)
    ensures var r := Collected(s, createOk, failAt, renameOk);
      LogGood(r) && r.pending == s.pending && r.durable.Keys == s.durable.Keys && r.valid == s.valid
    ensures GcCheck(s.valid, s.total) && Compacts(s.log.data, createOk, failAt, renameOk) ==>
      var r := Collected(s, createOk, failAt, renameOk);
      r.log == LogFiles(Some(LogOf(Loaded(s.log.data))), None) && r.total == r.valid &&
      Loaded(s.log.data) == Kept(Records(Contents(s.log.data)))
  {
    StoredGc(Contents(s.log.data), s.durable, s.valid, s.total, s.pending);
  }

  /** remove (the acknowledgement): a durable message has its record marked
      invalid in place, at the place the durable map holds, and leaves the
      durable map; then gc runs if gc_check asks for it. The message leaves the
      wait-ack map in any case. */
  function Acked(s: QueueState, id: string, writeOk: bool, createOk: bool, failAt: nat, renameOk: bool): (r: QueueState)
    ensures r.waitAck == s.waitAck - {id}
    ensures id !in s.waitAck ==> r == s
    ensures id in s.waitAck && !IsDurable(s.waitAck[id]) ==> r == s.(waitAck := r.waitAck)
    ensures id in s.waitAck && IsDurable(s.waitAck[id]) && !GcCheck(Dec(s.valid), s.total) ==>
      r.pending == s.pending && r.durable == s.durable - {id} && r.valid == Dec(s.valid) && r.total == s.total
  {
    if id !in s.waitAck then s
    else if !IsDurable(s.waitAck[id]) then s.(waitAck := s.waitAck - {id})
    else
      var m := if id in s.durable then s.durable[id] else s.waitAck[id];
      var file := Invalidate(s.log.data, m, writeOk).1;
      var s1 := s.(log := s.log.(data := file), durable := s.durable - {id}, valid := Dec(s.valid));
      var s2 := Collected(s1, createOk, failAt, renameOk);
      s2.(waitAck := s2.waitAck - {id})
  }

  /** An acknowledgement keeps a queue consistent when the in-place write
      succeeds; the acknowledged id leaves the durable map. */
  lemma AckKeeps(s: QueueState, id: string, createOk: bool, failAt: nat, renameOk: bool)
    requires Good(s)
    ensures var r := Acked(s, id, true, createOk, failAt, renameOk);
      Good(r) && r.pending == s.pending && (id in s.waitAck ==> r.durable.Keys == s.durable.Keys - {id})
  {
    if id in s.waitAck && IsDurable(s.waitAck[id]) {
      var file := Invalidate(s.log.data, s.durable[id], true).1;
      var s1 := s.(log := s.log.(data := file), durable := s.durable - {id}, valid := Dec(s.valid));
      StoredAck(s.log.data, s.durable, s.valid, s.total, id);
      assert LogGood(s1);
      CollectKeeps(s1, createOk, failAt, renameOk);
      QueuedAck(s.pending, s.durable.Keys, s.waitAck, id);
    } else if id in s.waitAck {
      QueuedAck(s.pending, s.durable.Keys, s.waitAck, id);
    }
  }

  /** recovery: the log is compacted and the messages it kept are queued and
      entered, an existing entry kept; both counters become their number. When
      the compaction fails on a log that loads, the data file stays and its valid
      records are queued and entered where they are, with valid their number and
      total the number of its records. A log that does not load gives nothing. */
  function Recovered(s: QueueState, createOk: bool, failAt: nat, renameOk: bool): (r: QueueState)
    ensures r.waitAck == s.waitAck && r.valid == |r.pending|
    ensures Compacts(s.log.data, createOk, failAt, renameOk) ==>
      r.log == LogFiles(Some(LogOf(Loaded(s.log.data))), None) && |r.pending| == |Loaded(s.log.data)| &&
      r.total == |r.pending|
    ensures !Compacts(s.log.data, createOk, failAt, renameOk) ==> r.log.data == s.log.data
    ensures !Compacts(s.log.data, createOk, failAt, renameOk) && Sound(Contents(s.log.data)) ==>
      r.pending == ValidRecords(Records(Contents(s.log.data))) && r.total == |Records(Contents(s.log.data))|
    ensures !Sound(Contents(s.log.data)) ==> r.pending == [] && r.total == 0 && r.durable == s.durable
  {
    var log := GcFiles(s.log, createOk, failAt, renameOk);
    var data := Contents(s.log.data);
    if Compacts(s.log.data, createOk, failAt, renameOk) then
      LoadSound(data);
      var ms := Placed(Loaded(s.log.data));
      QueueState(log, ms, Entered(s.durable, ms), s.waitAck, |ms|, |ms|)
    else if Sound(data) then
      var ms := ValidRecords(Records(data));
      QueueState(log, ms, Entered(s.durable, ms), s.waitAck, |ms|, |Records(data)|)
    else QueueState(log, [], s.durable, s.waitAck, 0, 0)
  }

  /** Recovery of a new queue from a log that loads, whose valid messages are
      durable and carry distinct ids, yields a consistent queue of exactly those
      messages, in log order, all of them durable, whether or not the compaction
      succeeds. */
  lemma RecoverKeeps(s: QueueState, createOk: bool, failAt: nat, renameOk: bool)
    requires s.durable == map[] && s.waitAck == map[]
    requires Sound(Contents(s.log.data)) && Recoverable(Loaded(s.log.data))
    ensures var r := Recovered(s, createOk, failAt, renameOk);
      Good(r) && |r.pending| == |Loaded(s.log.data)| &&
      forall i :: 0 <= i < |r.pending| ==> r.pending[i].payload == Loaded(s.log.data)[i]
  {
    if Compacts(s.log.data, createOk, failAt, renameOk) {
      RecoverCompacted(s, createOk, failAt, renameOk);
    } else {
      RecoverInPlace(s, createOk, failAt, renameOk);
    }
  }

  /** RecoverKeeps when the compaction succeeds. */
  lemma RecoverCompacted(s: QueueState, createOk: bool, failAt: nat, renameOk: bool)
    requires s.durable == map[] && s.waitAck == map[]
    requires Compacts(s.log.data, createOk, failAt, renameOk) && Recoverable(Loaded(s.log.data))
    ensures var r := Recovered(s, createOk, failAt, renameOk);
      Good(r) && |r.pending| == |Loaded(s.log.data)| &&
      forall i :: 0 <= i < |r.pending| ==> r.pending[i].payload == Loaded(s.log.data)[i]
  {
    var ps := Loaded(s.log.data);
    var r := Recovered(s, createOk, failAt, renameOk);
    assert r == QueueState(LogFiles(Some(LogOf(ps)), None), Placed(ps), Entered(map[], Placed(ps)), map[],
                           |ps|, |ps|);
    assert Good(r) by {
      LoadValid(Contents(s.log.data), 0);
      StoredRecovery(ps, LogOf(ps), Placed(ps), Entered(map[], Placed(ps)));
    }
    assert forall i :: 0 <= i < |r.pending| ==> r.pending[i].payload == ps[i] by {
      LoadValid(Contents(s.log.data), 0);
      PlacedUnique(ps);
    }
  }

  /** RecoverKeeps when the compaction fails: the data file stays, and its valid
      records, queued and entered where they are, agree with it. */
  lemma RecoverInPlace(s: QueueState, createOk: bool, failAt: nat, renameOk: bool)
    requires s.durable == map[] && s.waitAck == map[]
    requires !Compacts(s.log.data, createOk, failAt, renameOk)
    requires Sound(Contents(s.log.data)) && Recoverable(Loaded(s.log.data))
    ensures var r := Recovered(s, createOk, failAt, renameOk);
      Good(r) && |r.pending| == |Loaded(s.log.data)| &&
      forall i :: 0 <= i < |r.pending| ==> r.pending[i].payload == Loaded(s.log.data)[i]
  {
    var data := Contents(s.log.data);
    var rs := Records(data);
    var vs := ValidRecords(rs);
    var r := Recovered(s, createOk, failAt, renameOk);
    assert r.log.data == s.log.data && r.pending == vs && r.durable == Entered(map[], vs);
    assert r.valid == |vs| && r.total == |rs| && r.waitAck == map[];
    LoadAll(data);
    ValidRecordsKept(rs);
    UniqueFromKept(rs);
    assert UniqueValid(vs) by {
      forall i, j | 0 <= i < j < |vs|
        ensures vs[i].Id() != vs[j].Id()
      {
        assert vs[i].payload == Kept(rs)[i] && vs[j].payload == Kept(rs)[j];
      }
    }
    assert forall j :: 0 <= j < |vs| ==> IsDurable(vs[j]) by {
      forall j | 0 <= j < |vs|
        ensures IsDurable(vs[j])
      {
        assert vs[j].payload == Kept(rs)[j];
      }
    }
    EnteredValid(vs);
    UniqueIndexedValid(rs);
    IndexSize(rs);
    assert LogGood(r);
    QueuedAll(vs);
  }

  /** gc as queue_message::gc writes it: when gc_check asks for it, the mapper's
      gc as written runs, and the list it hands back, on failure too, patches the
      maps (an entry takes the place the list gives; a message without an entry is
      queued and entered) and sets both counters to its length. */
  function CollectedAsWritten(s: QueueState, createOk: bool, failAt: nat, removeOk: bool, renameOk: bool)
    : (r: QueueState)
    ensures r.waitAck == s.waitAck
    ensures !GcCheck(s.valid, s.total) ==> r == s
    ensures GcCheck(s.valid, s.total) ==>
      r.log == GcOutcome(s.log, createOk, failAt, removeOk, renameOk).0 &&
      r.valid == r.total == |GcOutcome(s.log, createOk, failAt, removeOk, renameOk).1|
  {
    if !GcCheck(s.valid, s.total) then s
    else
      var (log, ms) := GcOutcome(s.log, createOk, failAt, removeOk, renameOk);
      var dp := Patch(s.durable, s.pending, ms);
      QueueState(log, dp.1, dp.0, s.waitAck, |ms|, |ms|)
  }

  /** recovery as written: the whole list the mapper's gc as written hands back,
      on failure too, is queued and entered, and both counters become its length. */
  function RecoveredAsWritten(s: QueueState, createOk: bool, failAt: nat, removeOk: bool, renameOk: bool)
    : (r: QueueState)
    ensures r.waitAck == s.waitAck && r.valid == |r.pending| && r.total == |r.pending|
    ensures r.log == GcOutcome(s.log, createOk, failAt, removeOk, renameOk).0
    ensures r.pending == GcOutcome(s.log, createOk, failAt, removeOk, renameOk).1
  {
    var (log, ms) := GcOutcome(s.log, createOk, failAt, removeOk, renameOk);
    QueueState(log, ms, Entered(s.durable, ms), s.waitAck, |ms|, |ms|)
  }

  /** When the data file exists and every step of the compaction succeeds, gc and
      recovery as written do what the corrected ones do; they part only on failure. */
  lemma AsWrittenAgrees(s: QueueState, createOk: bool, failAt: nat, renameOk: bool)
    requires s.log.data.Some? && Compacts(s.log.data, createOk, failAt, renameOk)
    ensures CollectedAsWritten(s, createOk, failAt, true, renameOk) == Collected(s, createOk, failAt, renameOk)
    ensures RecoveredAsWritten(s, createOk, failAt, true, renameOk) == Recovered(s, createOk, failAt, renameOk)
  {
    GcOutcomeCompacts(s.log, createOk, failAt, renameOk);
  }

  /** Recovering a one-record log whose first insert into the temporary file fails:
      as written, the message is queued and entered with its place unset, so the
      durable map no longer locates its record and the queue is not consistent.
      The corrected recovery is RecoveredFailedInsert. */
  lemma RecoveredAsWrittenFailedInsert(s: QueueState, p: Payload)
    requires Fits(p) && p.valid
    requires s.log == LogFiles(Some(LogOf([p])), None) && s.durable == map[] && s.waitAck == map[]
    ensures var r := RecoveredAsWritten(s, true, 0, true, true);
      r.pending == [Message(p, 0, 0)] && r.durable == map[p.props.id := Message(p, 0, 0)] &&
      r.log.data == s.log.data && r.valid == 1 && !Good(r)
  {
    GcOutcomeFailedInsert(p);
    var m := Message(p, 0, 0);
    var r := RecoveredAsWritten(s, true, 0, true, true);
    assert r.pending == [m];
    assert r.durable == Entered(map[], [m]);
    assert [m][..0] == [];
    assert Entered(map[], [m]) == map[m.Id() := m];
    RecordsLogOf([p]);
    var rec := Records(LogOf([p]));
    assert rec == [Message(p, WordSize, |Serialize(p)|)] by {
      KeptPlaced(p);
    }
    assert rec[..0] == [];
    assert Index(rec)[p.props.id].offset == WordSize;
  }

  /** The same recovery, corrected: the data file stays, and its one message is
      queued and entered at its place in it; a durable message leaves the queue
      consistent. */
  lemma RecoveredFailedInsert(s: QueueState, p: Payload)
    requires Fits(p) && p.valid
    requires s.log == LogFiles(Some(LogOf([p])), None) && s.durable == map[] && s.waitAck == map[]
    ensures var r := Recovered(s, true, 0, true);
      r.pending == [Message(p, WordSize, |Serialize(p)|)] && r.log.data == s.log.data && r.valid == 1 && r.total == 1
    ensures p.props.mode == Durable ==> Good(Recovered(s, true, 0, true))
  {
    var m := OneRecordLog(p);
    assert ValidRecords([m]) == [m] by {
      assert [m][..0] == [];
    }
    if p.props.mode == Durable {
      RecoverKeeps(s, true, 0, true);
    }
  }

  /** A one-record log loads, holds its record after the length word, and cannot
      be compacted when the first insert fails. */
  lemma OneRecordLog(p: Payload) returns (m: Message)
    requires Fits(p) && p.valid
    ensures m == Message(p, WordSize, |Serialize(p)|)
    ensures Sound(LogOf([p])) && Records(LogOf([p])) == [m]
    ensures Loaded(Some(LogOf([p]))) == [p] && !Compacts(Some(LogOf([p])), true, 0, true)
  {
    m := Message(p, WordSize, |Serialize(p)|);
    RecordsLogOf([p]);
    assert Records(LogOf([p])) == [m] by {
      KeptPlaced(p);
    }
    LoadAll(LogOf([p]));
  }

  /** clear: both files are removed and the queue forgets every message; when
      the data file is gone the queue is consistent again. */
  function Cleared(s: QueueState, dataOk: bool, tmpOk: bool): (r: QueueState)
    ensures r.pending == [] && r.durable == map[] && r.waitAck == map[] && r.valid == 0 && r.total == 0
    ensures r.log == RemoveMsgFile(s.log, dataOk, tmpOk)
    ensures dataOk ==> r.log.data == None
  {
    QueueState(RemoveMsgFile(s.log, dataOk, tmpOk), [], map[], map[], 0, 0)
  }

  lemma ClearKeeps(s: QueueState, dataOk: bool, tmpOk: bool)
    ensures dataOk ==> Good(Cleared(s, dataOk, tmpOk))
  {
    SoundEmpty();
  }

  // ---------------------------------------------------------------------------
  // queue_message
  // ---------------------------------------------------------------------------

  /** The messages of one queue: the log, the pending list, the durable map, the
      wait-ack map and the two counters. */
  class QueueMessage {
    const name: string
    var log: LogFiles
    var pending: seq<Message>
    var durable: map<string, Message>
    var waitAck: map<string, Message>
    var valid: nat
    var total: nat

    /** The fields as a value. */
    function State(): QueueState
      reads this
    {
      QueueState(log, pending, durable, waitAck, valid, total)
    }

    ghost predicate Valid()
      reads this
    {
      Good(State())
    }

    /** The mapper's constructor creates the data file when it is missing. */
    constructor (name: string, files: LogFiles, createOk: bool)
      ensures this.name == name && State() == Created(files, createOk)
    {
      this.name := name;
      var (_, log') := CreateMsgFile(files, createOk);
      log := log';
      pending := [];
      durable := map[];
      waitAck := map[];
      valid := 0;
      total := 0;
    }

    method Recovery(createOk: bool, failAt: nat, renameOk: bool) returns (ok: bool)
      modifies this
      ensures ok && State() == Recovered(old(State()), createOk, failAt, renameOk)
    {
      var compacted, files, ms := Gc(log, createOk, failAt, renameOk);
      var count := |ms|;
      if !compacted && Sound(Contents(log.data)) {
        // The data file stays, and its valid records are queued where they lie.
        var records := Records(Contents(log.data));
        ms, count := ValidRecords(records), |records|;
      }
      log := files;
      pending := ms;
      durable := EnterAll(durable, ms);
      valid, total := |ms|, count;
      ok := true;
    }

    /** insert, with the envelope built from the caller's properties or from a
        fresh id. */
    method Insert(bp: Option<Properties>, body: string, queueDurable: bool, uuid: string,
                  wordOk: bool, bodyOk: bool) returns (ok: bool)
      requires Fits(Envelope(bp, body, queueDurable, uuid))
      modifies this
      ensures (ok, State()) == Inserted(old(State()), Envelope(bp, body, queueDurable, uuid), wordOk, bodyOk)
    {
      var p := Envelope(bp, body, queueDurable, uuid);
      if p.props.mode == Durable {
        var a := Append(log.data, p, wordOk, bodyOk);
        log := log.(data := a.file);
        if !a.ok {
          return false;
        }
        valid, total := valid + 1, total + 1;
        if p.props.id !in durable {
          durable := durable[p.props.id := a.msg];
        }
        pending := pending + [a.msg];
      } else {
        pending := pending + [Message(p, 0, 0)];
      }
      ok := true;
    }

    /** remove: the acknowledgement of a message handed out by front. */
    method Remove(id: string, writeOk: bool, createOk: bool, failAt: nat, renameOk: bool) returns (ok: bool)
      modifies this
      ensures ok && State() == Acked(old(State()), id, writeOk, createOk, failAt, renameOk)
    {
      if id !in waitAck {
        return true;
      }
      if IsDurable(waitAck[id]) {
        var m := if id in durable then durable[id] else waitAck[id];
        var (_, file) := Invalidate(log.data, m, writeOk);
        log := log.(data := file);
        durable := durable - {id};
        valid := Dec(valid);
        Collect(createOk, failAt, renameOk);
      }
      waitAck := waitAck - {id};
      ok := true;
    }

    method Front() returns (m: Option<Message>)
      modifies this
      ensures (m, State()) == FrontOf(old(State()))
    {
      if pending == [] {
        return None;
      }
      var msg := pending[0];
      pending := pending[1..];
      if msg.Id() !in waitAck {
        waitAck := waitAck[msg.Id() := msg];
      }
      m := Some(msg);
    }

    method GetableCount() returns (n: nat)
      ensures n == |pending|
    {
      n := |pending|;
    }

    /** total_count: every record of the log, valid or not. */
    method TotalCount() returns (n: nat)
      ensures n == total
      ensures Valid() ==> n == |Records(Contents(log.data))|
    {
      n := total;
      if Valid() {
        Counts(State());
      }
    }

    /** durable_count: the valid records of the log. */
    method DurableCount() returns (n: nat)
      ensures n == |durable|
      ensures Valid() ==> n == valid == |Kept(Records(Contents(log.data)))|
    {
      n := |durable|;
      if Valid() {
        Counts(State());
      }
    }

    method WaitAckCount() returns (n: nat)
      ensures n == |waitAck|
    {
      n := |waitAck|;
    }

    method Clear(dataOk: bool, tmpOk: bool)
      modifies this
      ensures State() == Cleared(old(State()), dataOk, tmpOk)
    {
      log := RemoveMsgFile(log, dataOk, tmpOk);
      pending, durable, waitAck := [], map[], map[];
      valid, total := 0, 0;
    }

    /** gc: compaction when gc_check asks for it, then the patch loop. */
    method Collect(createOk: bool, failAt: nat, renameOk: bool)
      modifies this
      ensures State() == Collected(old(State()), createOk, failAt, renameOk)
    {
      if !GcCheck(valid, total) {
        return;
      }
      ghost var s0 := State();
      var ok, files, ms := Gc(log, createOk, failAt, renameOk);
      log := files;
      if !ok {
        assert State() == s0.(log := files);
        return;
      }
      var d, p := PatchAll(durable, pending, ms);
      durable, pending := d, p;
      valid, total := |ms|, |ms|;
      assert ms == Placed(Loaded(s0.log.data));
      assert State() == QueueState(files, Patch(s0.durable, s0.pending, ms).1, Patch(s0.durable, s0.pending, ms).0,
                                   s0.waitAck, |ms|, |ms|);
    }
  }

  // ---------------------------------------------------------------------------
  // message_manager
  // ---------------------------------------------------------------------------

  /** The queues' message stores, by queue name. The files of each queue are
      handed in when the queue is first set up, in place of the directory. */
  class MessageManager {
    const baseDir: string
    var queues: map<string, QueueMessage>

    /** Each store sits under its own queue's name, so distinct names hold
        distinct stores. */
    ghost predicate Valid()
      reads this
    {
      forall n :: n in queues ==> queues[n].name == n
    }

    constructor (baseDir: string)
      ensures this.baseDir == baseDir && queues == map[] && Valid()
    {
      this.baseDir := baseDir;
      queues := map[];
    }

    /** init_queue_msg: a queue already set up is left alone; otherwise its
        store is created over the given files and recovered from them. */
    method InitQueueMsg(qname: string, files: LogFiles, createOk: bool, failAt: nat, renameOk: bool)
      requires Valid()
      modifies this
      ensures Valid()
      ensures qname in old(queues) ==> queues == old(queues)
      ensures qname !in old(queues) ==>
        qname in queues && queues == old(queues)[qname := queues[qname]] && fresh(queues[qname]) &&
        queues[qname].State() == Recovered(Created(files, createOk), createOk, failAt, renameOk)
    {
      if qname in queues {
        return;
      }
      var q := new QueueMessage(qname, files, createOk);
      queues := queues[qname := q];
      var _ := q.Recovery(createOk, failAt, renameOk);
    }

    /** destroy_queue_msg: the store leaves the map, then is cleared. */
    method DestroyQueueMsg(qname: string, dataOk: bool, tmpOk: bool)
      requires Valid()
      modifies this, if qname in queues then {queues[qname]} else {}
      ensures Valid()
      ensures queues == old(queues) - {qname}
      ensures qname in old(queues) ==>
        old(queues)[qname].State() == Cleared(old(queues[qname].State()), dataOk, tmpOk)
    {
      if qname !in queues {
        return;
      }
      var q := queues[qname];
      queues := queues - {qname};
      q.Clear(dataOk, tmpOk);
    }

    /** insert: false for a queue that was never set up. */
    method Insert(qname: string, bp: Option<Properties>, body: string, queueDurable: bool, uuid: string,
                  wordOk: bool, bodyOk: bool) returns (ok: bool)
      requires Fits(Envelope(bp, body, queueDurable, uuid))
      modifies if qname in queues then {queues[qname]} else {}
      ensures qname !in queues ==> !ok
      ensures qname in queues ==>
        (ok, queues[qname].State()) ==
          Inserted(old(queues[qname].State()), Envelope(bp, body, queueDurable, uuid), wordOk, bodyOk)
    {
      if qname !in queues {
        return false;
      }
      ok := queues[qname].Insert(bp, body, queueDurable, uuid, wordOk, bodyOk);
    }

    /** front: no message for a queue that was never set up. */
    method Front(qname: string) returns (m: Option<Message>)
      modifies if qname in queues then {queues[qname]} else {}
      ensures qname !in queues ==> m == None
      ensures qname in queues ==> (m, queues[qname].State()) == FrontOf(old(queues[qname].State()))
    {
      if qname !in queues {
        return None;
      }
      m := queues[qname].Front();
    }

    /** ack: nothing happens for a queue that was never set up. */
    method Ack(qname: string, id: string, writeOk: bool, createOk: bool, failAt: nat, renameOk: bool)
      modifies if qname in queues then {queues[qname]} else {}
      ensures qname in queues ==>
        queues[qname].State() == Acked(old(queues[qname].State()), id, writeOk, createOk, failAt, renameOk)
    {
      if qname !in queues {
        return;
      }
      var _ := queues[qname].Remove(id, writeOk, createOk, failAt, renameOk);
    }

    method GetableCount(qname: string) returns (n: nat)
      ensures n == if qname in queues then |queues[qname].pending| else 0
    {
      n := 0;
      if qname in queues {
        n := queues[qname].GetableCount();
      }
    }

    method TotalCount(qname: string) returns (n: nat)
      ensures n == if qname in queues then queues[qname].total else 0
    {
      n := 0;
      if qname in queues {
        n := queues[qname].TotalCount();
      }
    }

    method DurableCount(qname: string) returns (n: nat)
      ensures n == if qname in queues then |queues[qname].durable| else 0
    {
      n := 0;
      if qname in queues {
        n := queues[qname].DurableCount();
      }
    }

    method WaitAckCount(qname: string) returns (n: nat)
      ensures n == if qname in queues then |queues[qname].waitAck| else 0
    {
      n := 0;
      if qname in queues {
        n := queues[qname].WaitAckCount();
      }
    }

    /** clear: every store is cleared; the map keeps them. */
    method Clear(dataOk: bool, tmpOk: bool)
      requires Valid()
      modifies set n | n in queues :: queues[n]
      ensures forall n :: n in queues ==> queues[n].State() == Cleared(old(queues[n].State()), dataOk, tmpOk)
    {
      ghost var distinct := forall a, b :: a in queues && b in queues && a != b ==> queues[a] != queues[b];
      assert distinct by {
        forall a, b | a in queues && b in queues && a != b
          ensures queues[a] != queues[b]
        {
          assert queues[a].name == a && queues[b].name == b;
        }
      }
      var names := queues.Keys;
      while names != {}
        invariant names <= queues.Keys
        invariant forall n :: n in queues ==>
          queues[n].State() == if n in names then old(queues[n].State()) else Cleared(old(queues[n].State()), dataOk, tmpOk)
        decreases |names|
      {
        var n :| n in names;
        var q := queues[n];
        assert forall k :: k in queues && k != n ==> queues[k] != q;
        q.Clear(dataOk, tmpOk);
        names := names - {n};
      }
    }
  }

  /** Ids and bodies short enough for any log. */
  predicate Short(xs: seq<string>)
  {
    forall i :: 0 <= i < |xs| ==> |xs[i]| <= 64
  }

  /** One successful insert into a store whose data file exists. */
  method InsertOne(q: QueueMessage, bp: Option<Properties>, body: string, queueDurable: bool, uuid: string)
    returns (m: Message)
    requires q.log.data.Some? && Fits(Envelope(bp, body, queueDurable, uuid))
    modifies q
    ensures q.log.data.Some? && q.waitAck == old(q.waitAck) && q.pending == old(q.pending) + [m]
    ensures m.payload == Envelope(bp, body, queueDurable, uuid)
    ensures |q.pending| == |old(q.pending)| + 1 && (old(q.pending) != [] ==> q.pending[0] == old(q.pending)[0])
    ensures if IsDurable(m) then
        q.total == old(q.total) + 1 && q.valid == old(q.valid) + 1 &&
        q.durable == if m.Id() in old(q.durable) then old(q.durable) else old(q.durable)[m.Id() := m]
      else q.total == old(q.total) && q.valid == old(q.valid) && q.durable == old(q.durable)
    ensures IsDurable(m) ==> m.Id() in q.durable && (m.Id() !in old(q.durable) ==> |q.durable| == |old(q.durable)| + 1)
  {
    var _ := q.Insert(bp, body, queueDurable, uuid, true, true);
    m := q.pending[|q.pending| - 1];
  }

  /** Two successful inserts of durable messages with new, distinct ids. */
  method InsertTwo(q: QueueMessage, bp0: Option<Properties>, body0: string, uuid0: string,
                   body1: string, uuid1: string) returns (m0: Message, m1: Message)
    requires q.log.data.Some? && Fits(Envelope(bp0, body0, true, uuid0)) && Fits(Envelope(None, body1, true, uuid1))
    requires Envelope(bp0, body0, true, uuid0).props.mode == Durable
    requires Envelope(bp0, body0, true, uuid0).props.id != uuid1
    requires Envelope(bp0, body0, true, uuid0).props.id !in q.durable && uuid1 !in q.durable
    modifies q
    ensures q.log.data.Some? && q.waitAck == old(q.waitAck) && q.pending == old(q.pending) + [m0, m1]
    ensures m0.payload == Envelope(bp0, body0, true, uuid0) && m1.payload == Envelope(None, body1, true, uuid1)
    ensures q.total == old(q.total) + 2 && q.valid == old(q.valid) + 2
    ensures q.durable == old(q.durable)[m0.Id() := m0][m1.Id() := m1] && |q.durable| == |old(q.durable)| + 2
  {
    m0 := InsertOne(q, bp0, body0, true, uuid0);
    m1 := InsertOne(q, None, body1, true, uuid1);
  }

  /** The setup of msg_test.cc: a manager over a fresh directory and one queue
      set up in it, whose recovery finds an empty log. */
  method SetUp(qname: string) returns (mm: MessageManager)
    ensures fresh(mm) && qname in mm.queues && fresh(mm.queues[qname])
    ensures mm.queues[qname].State() == QueueState(LogFiles(Some([]), None), [], map[], map[], 0, 0)
  {
    mm := new MessageManager("./data-mesg");
    mm.InitQueueMsg(qname, LogFiles(None, None), true, 0, true);
    assert LoadFrom([], 0) == (true, []);
  }

  /** The setup and insert test of msg_test.cc, for any short bodies and ids: a
      queue over a fresh directory, four durable messages (the first with its
      own properties, the others with generated ids) and one for a queue that is
      not durable. */
  method InsertFive(bodies: seq<string>, ids: seq<string>, key: string) returns (mm: MessageManager)
    requires |bodies| == 5 && |ids| == 5 && Short(bodies) && Short(ids) && |key| <= 64
    requires ids[0] != ids[1] && ids[0] != ids[2] && ids[0] != ids[3] && ids[1] != ids[2] && ids[1] != ids[3] && ids[2] != ids[3]
    ensures fresh(mm) && "queue1" in mm.queues && fresh(mm.queues["queue1"])
    ensures var q := mm.queues["queue1"];
      |q.pending| == 5 && q.total == 4 && q.valid == 4 && |q.durable| == 4 && q.waitAck == map[] &&
      q.pending[0].payload.body == bodies[0] && IsDurable(q.pending[0]) && q.pending[0].Id() == ids[0] &&
      ids[0] in q.durable
    ensures var q := mm.queues["queue1"];
      forall i :: 0 <= i < 4 ==> q.pending[i].payload.body == bodies[i] && q.pending[i].Id() == ids[i]
  {
    mm := SetUp("queue1");
    var q := mm.queues["queue1"];
    var m0, m1 := InsertTwo(q, Some(Properties(ids[0], Durable, key)), bodies[0], "", bodies[1], ids[1]);
    var m2, m3 := InsertTwo(q, None, bodies[2], ids[2], bodies[3], ids[3]);
    var m4 := InsertOne(q, None, bodies[4], false, ids[4]);
    assert q.pending == [m0, m1, m2, m3, m4];
  }

  /** One front on a store whose first ready message, of the ready messages
      `ms`, is not yet waiting for an acknowledgement. */
  method FrontOne(q: QueueMessage, ghost ms: seq<Message>) returns (m: Message)
    requires q.pending == ms && ms != [] && ms[0].Id() !in q.waitAck
    modifies q
    ensures m == ms[0] && q.pending == ms[1..]
    ensures |q.waitAck| == |old(q.waitAck)| + 1 && m.Id() in q.waitAck && q.waitAck[m.Id()] == m
    ensures forall id :: id in q.waitAck <==> id in old(q.waitAck) || id == m.Id()
    ensures q.durable == old(q.durable) && q.valid == old(q.valid) && q.total == old(q.total)
  {
    var r := q.Front();
    m := r.value;
  }

  /** Two fronts in a row, reporting the ready and unacknowledged counts after
      each. */
  method FrontTwo(q: QueueMessage, ghost ms: seq<Message>)
    returns (m0: Message, g0: nat, w0: nat, m1: Message, g1: nat, w1: nat)
    requires q.pending == ms && |ms| >= 2 && ms[0].Id() != ms[1].Id()
    requires ms[0].Id() !in q.waitAck && ms[1].Id() !in q.waitAck
    modifies q
    ensures m0 == ms[0] && m1 == ms[1] && q.pending == ms[2..]
    ensures g0 == |ms| - 1 && g1 == |ms| - 2 && w0 == |old(q.waitAck)| + 1 && w1 == |old(q.waitAck)| + 2 == |q.waitAck|
    ensures forall id :: id in q.waitAck <==> id in old(q.waitAck) || id == ms[0].Id() || id == ms[1].Id()
  {
    m0 := FrontOne(q, ms);
    g0 := q.GetableCount();
    w0 := q.WaitAckCount();
    m1 := FrontOne(q, ms[1..]);
    g1 := q.GetableCount();
    w1 := q.WaitAckCount();
  }

  /** One acknowledgement of a durable message handed out, while too few records
      are invalid for a gc. */
  method AckOne(q: QueueMessage, id: string)
    requires id in q.waitAck && IsDurable(q.waitAck[id]) && !GcCheck(Dec(q.valid), q.total)
    modifies q
    ensures q.waitAck == old(q.waitAck) - {id} && q.durable == old(q.durable) - {id}
    ensures q.pending == old(q.pending) && q.valid == Dec(old(q.valid)) && q.total == old(q.total)
  {
    var _ := q.Remove(id, true, true, 0, true);
  }

  /** select_test: four fronts hand out the four durable messages in the order
      they were inserted, each moving one message from ready to unacknowledged. */
  method SelectScenario(bodies: seq<string>, ids: seq<string>, key: string)
    returns (got: seq<string>, getable: seq<nat>, waiting: seq<nat>)
    requires |bodies| == 5 && |ids| == 5 && Short(bodies) && Short(ids) && |key| <= 64
    requires ids[0] != ids[1] && ids[0] != ids[2] && ids[0] != ids[3] && ids[1] != ids[2] && ids[1] != ids[3] && ids[2] != ids[3]
    ensures got == [bodies[0], bodies[1], bodies[2], bodies[3]] && getable == [4, 3, 2, 1] && waiting == [1, 2, 3, 4]
  {
    var mm := InsertFive(bodies, ids, key);
    var q := mm.queues["queue1"];
    ghost var ms := q.pending;
    var m0, g0, w0, m1, g1, w1 := FrontTwo(q, ms);
    var m2, g2, w2, m3, g3, w3 := FrontTwo(q, ms[2..]);
    got, getable, waiting := [m0.payload.body, m1.payload.body, m2.payload.body, m3.payload.body], [g0, g1, g2, g3], [w0, w1, w2, w3];
  }

  /** The insert test's counts, then delete_ack_test: the first message comes
      out of front, and its acknowledgement drops it from the durable map while
      its record still counts towards the total, as no gc has run. */
  method MessageTestScenario(bodies: seq<string>, ids: seq<string>, key: string)
    returns (inserted: seq<nat>, first: string, selected: seq<nat>, acked: seq<nat>)
    requires |bodies| == 5 && |ids| == 5 && Short(bodies) && Short(ids) && |key| <= 64
    requires ids[0] != ids[1] && ids[0] != ids[2] && ids[0] != ids[3] && ids[1] != ids[2] && ids[1] != ids[3] && ids[2] != ids[3]
    ensures inserted == [5, 4, 4, 0]
    ensures first == bodies[0] && selected == [4, 1]
    ensures acked == [3, 4, 4, 0]
  {
    var mm := InsertFive(bodies, ids, key);
    var q := mm.queues["queue1"];
    var g := q.GetableCount();
    var t := q.TotalCount();
    var d := q.DurableCount();
    var w := q.WaitAckCount();
    inserted := [g, t, d, w];
    var m := FrontOne(q, q.pending);
    first := m.payload.body;
    g := q.GetableCount();
    w := q.WaitAckCount();
    selected := [g, w];
    AckOne(q, m.Id());
    d := q.DurableCount();
    g := q.GetableCount();
    t := q.TotalCount();
    w := q.WaitAckCount();
    acked := [d, g, t, w];
  }
}
