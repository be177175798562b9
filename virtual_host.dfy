// The virtual host (mqserver/virtual_host.hpp): one exchange registry, one queue
// registry, one binding registry and one message manager, with the operations
// that have to touch several of them at once.
module VirtualHost {
  import opened Wrappers
  import opened Router
  import opened Args
  import opened Codec
  import opened Mapper
  import opened MessageStore
  import Ex = Exchange
  import Qu = Queue
  import Bi = Binding

  class VirtualHost {
    const hostName: string
    const emp: Ex.ExchangeManager
    const mqmp: Qu.MsgQueueManager
    const bmp: Bi.BindingManager
    const mmp: MessageManager

    /** The message stores are well named, and every declared queue has one. */
    ghost predicate Valid()
      reads mqmp, mmp
    {
      mmp.Valid() && mqmp.queues.Keys <= mmp.queues.Keys
    }

    /** Each registry agrees with its catalog table. */
    ghost predicate Consistent()
      reads emp, mqmp, bmp
    {
      emp.Valid() && mqmp.Valid() && bmp.Valid()
    }

    /** Every binding joins a declared exchange to a declared queue. */
    ghost predicate Linked()
      reads emp, mqmp, bmp
    {
      forall e, q :: Bi.Entry(bmp.bindings, e, q).Some? ==> e in emp.exchanges && q in mqmp.queues
    }

    /** The host over its four managers. */
    constructor (hostName: string, emp: Ex.ExchangeManager, mqmp: Qu.MsgQueueManager, bmp: Bi.BindingManager,
                 mmp: MessageManager)
      ensures this.hostName == hostName && this.emp == emp && this.mqmp == mqmp && this.bmp == bmp && this.mmp == mmp
    {
      this.hostName, this.emp, this.mqmp, this.bmp, this.mmp := hostName, emp, mqmp, bmp, mmp;
    }

    /** virtual_host's constructor: the registries are read back from the
        catalog, then every recovered queue has its message store set up over its
        files and recovered from them. Each queue's files, and the outcomes of the
        file operations its recovery makes, are its own: `filesOf`, `createOk`,
        `failAt` and `renameOk` give them by queue name. */
    static method Open(hostName: string, baseDir: string, exchangeRows: map<string, Ex.ExchangeRow>,
                       queueRows: map<string, Qu.QueueRow>, bindingRows: seq<Bi.Binding>,
                       filesOf: string -> LogFiles, createOk: string -> bool, failAt: string -> nat,
                       renameOk: string -> bool)
      returns (h: VirtualHost)
      ensures fresh(h) && fresh(h.emp) && fresh(h.mqmp) && fresh(h.bmp) && fresh(h.mmp)
      ensures h.Valid()
      ensures h.hostName == hostName && h.mmp.baseDir == baseDir
      ensures h.emp.tableExists && h.mqmp.tableExists && h.bmp.tableExists
      ensures h.emp.exchanges == Ex.Recover(exchangeRows) && h.mqmp.queues == Qu.Recover(queueRows) &&
              h.bmp.bindings == Bi.Group(bindingRows)
      ensures Ex.WellFormedTable(exchangeRows) && Qu.WellFormedTable(queueRows) && Bi.RowsAgree(bindingRows) ==>
              h.Consistent()
      ensures h.mmp.queues.Keys == h.mqmp.queues.Keys
      ensures forall n :: n in h.mmp.queues ==>
        fresh(h.mmp.queues[n]) &&
        h.mmp.queues[n].State() == Recovered(Created(filesOf(n), createOk(n)), createOk(n), failAt(n), renameOk(n))
    {
      // The four managers are independent of each other; the message stores
      // depend only on the queue registry.
      var q := new Qu.MsgQueueManager(queueRows);
      var m := new MessageManager(baseDir);
      RecoverStores(m, q, filesOf, createOk, failAt, renameOk);
      var e := new Ex.ExchangeManager(exchangeRows);
      var b := new Bi.BindingManager(bindingRows);
      h := new VirtualHost(hostName, e, q, b, m);
    }

    /** The recovery loop of the constructor: one init_queue_msg per declared
        queue. */
    static method RecoverStores(m: MessageManager, q: Qu.MsgQueueManager, filesOf: string -> LogFiles,
                                createOk: string -> bool, failAt: string -> nat, renameOk: string -> bool)
      requires m.Valid() && m.queues == map[]
      modifies m
      ensures m.Valid() && m.queues.Keys == q.queues.Keys
      ensures forall n :: n in m.queues ==>
        fresh(m.queues[n]) &&
        m.queues[n].State() == Recovered(Created(filesOf(n), createOk(n)), createOk(n), failAt(n), renameOk(n))
    {
      var all := q.All();
      var rest := all.Keys;
      while rest != {}
        invariant rest <= all.Keys && m.Valid()
        invariant forall k :: k in m.queues <==> k in all && k !in rest
        invariant forall n :: n in m.queues ==>
          fresh(m.queues[n]) &&
          m.queues[n].State() == Recovered(Created(filesOf(n), createOk(n)), createOk(n), failAt(n), renameOk(n))
        decreases |rest|
      {
        var n :| n in rest;
        m.InitQueueMsg(n, filesOf(n), createOk(n), failAt(n), renameOk(n));
        rest := rest - {n};
      }
    }

    /** declare_exchange. */
    method DeclareExchange(name: string, kind: ExchangeType, durable: bool, autoDelete: bool,
                           args: ArgMap, storeOk: bool) returns (ok: bool)
      modifies emp
      ensures emp.tableExists == old(emp.tableExists)
      ensures old(Valid()) ==> Valid()
      ensures old(Consistent()) ==> Consistent()
      ensures old(Linked()) ==> Linked()
      ensures ok <==> name in emp.exchanges
      ensures name in old(emp.exchanges) ==> emp.exchanges == old(emp.exchanges)
      ensures name !in old(emp.exchanges) ==>
        (ok <==> !durable || (emp.tableExists && storeOk)) &&
        emp.exchanges == if ok then old(emp.exchanges)[name := Ex.Exchange(name, kind, durable, autoDelete, args)]
                         else old(emp.exchanges)
    {
      ghost var order;
      ok, order := emp.DeclareExchange(name, kind, durable, autoDelete, args, storeOk);
    }

    /** delete_exchange: the exchange's bindings go first, then the exchange. */
    method DeleteExchange(name: string)
      modifies bmp, emp
      ensures old(Valid()) ==> Valid()
      ensures old(Consistent()) ==> Consistent()
      ensures old(Linked()) ==> Linked()
      ensures bmp.bindings == old(bmp.bindings) - {name} && emp.exchanges == old(emp.exchanges) - {name}
      ensures forall q :: Bi.Entry(bmp.bindings, name, q).None?
    {
      Bi.DropExchange(bmp.bindings, name);
      bmp.UnbindExchange(name);
      emp.DeleteExchange(name);
    }

    /** declare_queue: the queue's message store is set up first (a store that
        exists is kept), and stays even when the declaration then fails. */
    method DeclareQueue(qname: string, durable: bool, exclusive: bool, autoDelete: bool, args: ArgMap,
                        storeOk: bool, files: LogFiles, createOk: bool, failAt: nat, renameOk: bool)
      returns (ok: bool)
      requires Valid()
      modifies mmp, mqmp
      ensures mqmp.tableExists == old(mqmp.tableExists)
      ensures Valid()
      ensures old(Consistent()) ==> Consistent()
      ensures old(Linked()) ==> Linked()
      ensures qname in mmp.queues
      ensures qname in old(mmp.queues) ==> mmp.queues == old(mmp.queues)
      ensures qname !in old(mmp.queues) ==>
        mmp.queues == old(mmp.queues)[qname := mmp.queues[qname]] && fresh(mmp.queues[qname]) &&
        mmp.queues[qname].State() == Recovered(Created(files, createOk), createOk, failAt, renameOk)
      ensures forall n :: n in old(mmp.queues) ==> mmp.queues[n].State() == old(mmp.queues[n].State())
      ensures ok <==> qname in mqmp.queues
      ensures qname in old(mqmp.queues) ==> mqmp.queues == old(mqmp.queues)
      ensures qname !in old(mqmp.queues) ==>
        (ok <==> !durable || (mqmp.tableExists && storeOk)) &&
        mqmp.queues == if ok then old(mqmp.queues)[qname := Qu.MsgQueue(qname, durable, exclusive, autoDelete, args)]
                       else old(mqmp.queues)
    {
      mmp.InitQueueMsg(qname, files, createOk, failAt, renameOk);
      ghost var order;
      ok, order := mqmp.DeclareQueue(qname, durable, exclusive, autoDelete, args, storeOk);
    }

    /** delete_queue: the message store is destroyed, the queue's bindings go from
        under every exchange, then the queue goes. */
    method DeleteQueue(qname: string, dataOk: bool, tmpOk: bool)
      requires Valid()
      modifies mmp, (if qname in mmp.queues then {mmp.queues[qname]} else {}), bmp, mqmp
      ensures Valid()
      ensures old(Consistent()) ==> Consistent()
      ensures old(Linked()) ==> Linked()
      ensures mmp.queues == old(mmp.queues) - {qname}
      ensures qname in old(mmp.queues) ==>
        old(mmp.queues)[qname].State() == Cleared(old(mmp.queues[qname].State()), dataOk, tmpOk)
      ensures bmp.bindings == Bi.WithoutQueue(old(bmp.bindings), qname)
      ensures mqmp.queues == old(mqmp.queues) - {qname}
      ensures forall e :: Bi.Entry(bmp.bindings, e, qname).None?
    {
      mmp.DestroyQueueMsg(qname, dataOk, tmpOk);
      bmp.UnbindQueue(qname);
      mqmp.DeleteQueue(qname);
    }

    /** bind: both ends must be declared; the binding is durable exactly when both
        the exchange and the queue are. */
    method Bind(ename: string, qname: string, key: string, storeOk: bool) returns (ok: bool)
      modifies bmp
      ensures bmp.tableExists == old(bmp.tableExists)
      ensures old(Valid()) ==> Valid()
      ensures old(Consistent()) ==> Consistent()
      ensures old(Linked()) ==> Linked()
      ensures ename !in emp.exchanges || qname !in mqmp.queues ==>
        !ok && bmp.bindings == old(bmp.bindings) && bmp.table == old(bmp.table)
      ensures ename in emp.exchanges && qname in mqmp.queues ==>
        var durable := emp.exchanges[ename].durable && mqmp.queues[qname].durable;
        (Bi.Entry(old(bmp.bindings), ename, qname).Some? ==>
           ok && bmp.bindings == old(bmp.bindings) && bmp.table == old(bmp.table)) &&
        (Bi.Entry(old(bmp.bindings), ename, qname).None? && durable && !(bmp.tableExists && storeOk) ==>
           !ok && bmp.bindings == old(bmp.bindings) && bmp.table == old(bmp.table)) &&
        (Bi.Entry(old(bmp.bindings), ename, qname).None? && (!durable || (bmp.tableExists && storeOk)) ==>
           ok && bmp.bindings == old(bmp.bindings)[ename := Bi.InnerOf(old(bmp.bindings), ename)[qname := Bi.Binding(ename, qname, key)]] &&
           bmp.table == old(bmp.table) + (if durable then [Bi.Binding(ename, qname, key)] else []))
      ensures ok <==> ename in emp.exchanges && qname in mqmp.queues && Bi.Entry(bmp.bindings, ename, qname).Some?
    {
      var ep := emp.SelectExchange(ename);
      if ep.None? {
        return false;
      }
      var mqp := mqmp.SelectQueue(qname);
      if mqp.None? {
        return false;
      }
      ghost var m0 := bmp.bindings;
      Bi.SetEntry(m0, Bi.Binding(ename, qname, key));
      ok := bmp.Bind(ename, qname, key, ep.value.durable && mqp.value.durable, storeOk);
      if old(Linked()) {
        forall x, y | Bi.Entry(bmp.bindings, x, y).Some?
          ensures x in emp.exchanges && y in mqmp.queues
        {
          assert Bi.Entry(bmp.bindings, x, y) == Bi.Entry(m0, x, y) || (x == ename && y == qname);
        }
      }
    }

    /** unbind. */
    method Unbind(ename: string, qname: string)
      modifies bmp
      ensures old(Valid()) ==> Valid()
      ensures old(Consistent()) ==> Consistent()
      ensures old(Linked()) ==> Linked()
      ensures Bi.Entry(old(bmp.bindings), ename, qname).None? ==> bmp.bindings == old(bmp.bindings)
      ensures Bi.Entry(old(bmp.bindings), ename, qname).Some? ==>
        bmp.bindings == old(bmp.bindings)[ename := old(bmp.bindings)[ename] - {qname}]
      ensures Bi.Entry(bmp.bindings, ename, qname).None?
    {
      ghost var m0 := bmp.bindings;
      if Bi.Entry(m0, ename, qname).Some? {
        Bi.DropEntry(m0, ename, qname);
      }
      bmp.Unbind(ename, qname);
      if old(Linked()) {
        forall x, y | Bi.Entry(bmp.bindings, x, y).Some?
          ensures x in emp.exchanges && y in mqmp.queues
        {
          assert Bi.Entry(bmp.bindings, x, y) == Bi.Entry(m0, x, y);
        }
      }
    }

    /** exchange_bindings: the exchange's bindings by queue name. */
    method ExchangeBindings(ename: string) returns (r: Bi.QueueBindings)
      ensures forall q :: q in r <==> Bi.Entry(bmp.bindings, ename, q).Some?
      ensures forall q :: q in r ==> Some(r[q]) == Bi.Entry(bmp.bindings, ename, q)
      ensures r == Bi.InnerOf(bmp.bindings, ename)
    {
      r := bmp.GetExchangeBindings(ename);
    }

    /** select_exchange, which the channel calls and the host hands on to the
        exchange registry. */
    method SelectExchange(ename: string) returns (r: Option<Ex.Exchange>)
      ensures r.Some? <==> ename in emp.exchanges
      ensures r.Some? ==> r.value == emp.exchanges[ename]
    {
      r := emp.SelectExchange(ename);
    }

    /** basic_publish: false for a queue that is not declared; otherwise the
        message goes into the queue's store, durable only if the queue is. */
    method BasicPublish(qname: string, bp: Option<Properties>, body: string, uuid: string,
                        wordOk: bool, bodyOk: bool) returns (ok: bool)
      requires Valid() && Fits(Envelope(bp, body, true, uuid))
      modifies if qname in mmp.queues then {mmp.queues[qname]} else {}
      ensures qname !in mqmp.queues ==> !ok
      ensures qname !in mqmp.queues && qname in mmp.queues ==>
        mmp.queues[qname].State() == old(mmp.queues[qname].State())
      ensures qname in mqmp.queues ==> qname in mmp.queues
      ensures qname in mqmp.queues ==>
        (ok, mmp.queues[qname].State()) ==
          Inserted(old(mmp.queues[qname].State()), Envelope(bp, body, mqmp.queues[qname].durable, uuid), wordOk, bodyOk)
    {
      var mqp := mqmp.SelectQueue(qname);
      if mqp.None? {
        return false;
      }
      ok := mmp.Insert(qname, bp, body, mqp.value.durable, uuid, wordOk, bodyOk);
    }

    /** basic_consume: the queue's front message, which now awaits its
        acknowledgement. */
    method BasicConsume(qname: string) returns (m: Option<Message>)
      modifies if qname in mmp.queues then {mmp.queues[qname]} else {}
      ensures qname !in mmp.queues ==> m == None
      ensures qname in mmp.queues ==> (m, mmp.queues[qname].State()) == FrontOf(old(mmp.queues[qname].State()))
    {
      m := mmp.Front(qname);
    }

    /** basic_ack. */
    method BasicAck(qname: string, id: string, writeOk: bool, createOk: bool, failAt: nat, renameOk: bool)
      modifies if qname in mmp.queues then {mmp.queues[qname]} else {}
      ensures qname in mmp.queues ==>
        mmp.queues[qname].State() == Acked(old(mmp.queues[qname].State()), id, writeOk, createOk, failAt, renameOk)
    {
      mmp.Ack(qname, id, writeOk, createOk, failAt, renameOk);
    }

    /** clear: the three registries are emptied and their tables dropped; every
        message store is cleared and stays in the manager. */
    method Clear(dataOk: bool, tmpOk: bool)
      requires Valid()
      modifies emp, mqmp, bmp, set n | n in mmp.queues :: mmp.queues[n]
      ensures Valid() && Consistent() && Linked()
      ensures emp.exchanges == map[] && mqmp.queues == map[] && bmp.bindings == map[]
      ensures mmp.queues == old(mmp.queues)
      ensures forall n :: n in mmp.queues ==> mmp.queues[n].State() == Cleared(old(mmp.queues[n].State()), dataOk, tmpOk)
    {
      emp.ClearExchange();
      mqmp.ClearQueues();
      bmp.ClearBindings();
      mmp.Clear(dataOk, tmpOk);
    }

    method ExistsExchange(ename: string) returns (b: bool)
      ensures b <==> ename in emp.exchanges
    {
      b := emp.Exists(ename);
    }

    method ExistsQueue(qname: string) returns (b: bool)
      ensures b <==> qname in mqmp.queues
    {
      b := mqmp.Exists(qname);
    }

    method ExistsBinding(ename: string, qname: string) returns (b: bool)
      ensures b <==> Bi.Entry(bmp.bindings, ename, qname).Some?
    {
      b := bmp.Exists(ename, qname);
    }
  }

  // ---------------------------------------------------------------------------
  // host_test.cc
  // ---------------------------------------------------------------------------

  /** One publish, with a fresh id, to a declared queue whose data file exists. */
  method PublishOne(h: VirtualHost, qname: string, s: QueueMessage, body: string, uuid: string) returns (m: Message)
    requires h.Valid() && qname in h.mqmp.queues && h.mqmp.queues[qname].durable
    requires qname in h.mmp.queues && h.mmp.queues[qname] == s
    requires s.log.data.Some? && Fits(Envelope(None, body, true, uuid))
    modifies s
    ensures h.Valid() && s.log.data.Some? && s.waitAck == old(s.waitAck)
    ensures s.pending == old(s.pending) + [m] && m.payload == Envelope(None, body, true, uuid)
    ensures s.total == old(s.total) + 1 && s.valid == old(s.valid) + 1
  {
    var _ := h.BasicPublish(qname, None, body, uuid, true, true);
    m := s.pending[|s.pending| - 1];
  }

  /** One consume from a queue whose ready messages are `ms`, the first not yet
      waiting for its acknowledgement. */
  method ConsumeOne(h: VirtualHost, qname: string, s: QueueMessage, ghost ms: seq<Message>) returns (m: Message)
    requires qname in h.mmp.queues && h.mmp.queues[qname] == s
    requires s.pending == ms && ms != [] && ms[0].Id() !in s.waitAck
    modifies s
    ensures m == ms[0] && s.pending == ms[1..]
    ensures s.waitAck == old(s.waitAck)[m.Id() := m]
    ensures s.valid == old(s.valid) && s.total == old(s.total) && s.log == old(s.log) && s.durable == old(s.durable)
  {
    var r := h.BasicConsume(qname);
    m := r.value;
  }

  /** A queue set up over a missing data file starts with an empty log and
      no messages. */
  lemma NewQueueEmpty()
    ensures Recovered(Created(LogFiles(None, None), true), true, 0, true) == QueueState(LogFiles(Some([]), None), [], map[], map[], 0, 0)
  {
    assert LoadFrom([], 0) == (true, []);
  }

  /** A host over an empty catalog. */
  method EmptyHost() returns (h: VirtualHost)
    ensures fresh(h) && fresh(h.emp) && fresh(h.mqmp) && fresh(h.bmp) && fresh(h.mmp) && h.Valid()
    ensures h.emp.tableExists && h.mqmp.tableExists && h.bmp.tableExists
    ensures h.emp.exchanges == map[] && h.mqmp.queues == map[] && h.bmp.bindings == map[] && h.mmp.queues == map[]
  {
    h := VirtualHost.Open("host1", "./host1/message/", map[], map[], [], _ => LogFiles(None, None), _ => true, _ => 0, _ => true);
  }

  /** The declarations of host_test.cc's setup, reduced to one exchange and one
      queue: a durable exchange, a durable queue over a missing data file and a
      binding between them. */
  method DeclareAll() returns (h: VirtualHost, s: QueueMessage, declared: seq<bool>)
    ensures fresh(s) && h.Valid() && "queue1" in h.mqmp.queues && h.mqmp.queues["queue1"].durable
    ensures "queue1" in h.mmp.queues && h.mmp.queues["queue1"] == s
    ensures declared == [true, true, true]
    ensures Bi.Entry(h.bmp.bindings, "exchange1", "queue1").Some? && "exchange1" in h.emp.exchanges
    ensures s.State() == QueueState(LogFiles(Some([]), None), [], map[], map[], 0, 0)
  {
    h := EmptyHost();
    var e := h.DeclareExchange("exchange1", Direct, true, false, map[], true);
    var q := h.DeclareQueue("queue1", true, false, false, map[], true, LogFiles(None, None), true, 0, true);
    var b := h.Bind("exchange1", "queue1", "news.music.#", true);
    declared := [e, q, b];
    s := h.mmp.queues["queue1"];
    NewQueueEmpty();
  }

  /** host_test.cc's setup, reduced to one exchange and one queue: the
      declarations, then three publishes to the queue. */
  method SetUpHost(b1: string, b2: string, b3: string, u1: string, u2: string, u3: string)
    returns (h: VirtualHost, s: QueueMessage, declared: seq<bool>, ms: seq<Message>)
    requires |b1| <= 64 && |b2| <= 64 && |b3| <= 64 && |u1| <= 64 && |u2| <= 64 && |u3| <= 64
    ensures fresh(s) && h.Valid() && "queue1" in h.mqmp.queues && "queue1" in h.mmp.queues && h.mmp.queues["queue1"] == s
    ensures declared == [true, true, true]
    ensures Bi.Entry(h.bmp.bindings, "exchange1", "queue1").Some? && "exchange1" in h.emp.exchanges
    ensures |ms| == 3 && s.pending == ms && s.waitAck == map[] && s.total == 3 && s.valid == 3
    ensures ms[0].payload.body == b1 && ms[1].payload.body == b2 && ms[2].payload.body == b3
    ensures ms[0].Id() == u1 && ms[1].Id() == u2 && ms[2].Id() == u3
    ensures IsDurable(ms[0]) && IsDurable(ms[1]) && IsDurable(ms[2])
  {
    h, s, declared := DeclareAll();
    var m1 := PublishOne(h, "queue1", s, b1, u1);
    var m2 := PublishOne(h, "queue1", s, b2, u2);
    var m3 := PublishOne(h, "queue1", s, b3, u3);
    ms := [m1, m2, m3];
  }

  /** init_test: what was declared exists, and the queue hands out its three
      messages in the order they were published, then nothing. */
  method InitScenario(b1: string, b2: string, b3: string, u1: string, u2: string, u3: string)
    returns (present: seq<bool>, got: seq<string>, last: Option<Message>)
    requires |b1| <= 64 && |b2| <= 64 && |b3| <= 64 && |u1| <= 64 && |u2| <= 64 && |u3| <= 64
    requires u1 != u2 && u1 != u3 && u2 != u3
    ensures present == [true, true, true] && got == [b1, b2, b3] && last == None
  {
    var h, s, declared, ms := SetUpHost(b1, b2, b3, u1, u2, u3);
    var e := h.ExistsExchange("exchange1");
    var q := h.ExistsQueue("queue1");
    var b := h.ExistsBinding("exchange1", "queue1");
    present := [e, q, b];
    var m1 := ConsumeOne(h, "queue1", s, ms);
    var m2 := ConsumeOne(h, "queue1", s, ms[1..]);
    var m3 := ConsumeOne(h, "queue1", s, ms[2..]);
    got := [m1.payload.body, m2.payload.body, m3.payload.body];
    last := h.BasicConsume("queue1");
  }

  /** One acknowledgement of a durable message handed out, while too few
      records are invalid for a gc. */
  method AckOne(h: VirtualHost, qname: string, s: QueueMessage, id: string)
    requires qname in h.mmp.queues && h.mmp.queues[qname] == s
    requires id in s.waitAck && IsDurable(s.waitAck[id]) && !GcCheck(Dec(s.valid), s.total)
    modifies s
    ensures s.waitAck == old(s.waitAck) - {id} && s.pending == old(s.pending)
    ensures s.valid == Dec(old(s.valid)) && s.total == old(s.total)
  {
    h.BasicAck(qname, id, true, true, 0, true);
  }

  /** ack_test: each message is consumed and acknowledged in turn, in the order
      of publication; then the queue hands out nothing. */
  method AckScenario(b1: string, b2: string, b3: string, u1: string, u2: string, u3: string)
    returns (got: seq<string>, last: Option<Message>)
    requires |b1| <= 64 && |b2| <= 64 && |b3| <= 64 && |u1| <= 64 && |u2| <= 64 && |u3| <= 64
    requires u1 != u2 && u1 != u3 && u2 != u3
    ensures got == [b1, b2, b3] && last == None
  {
    var h, s, declared, ms := SetUpHost(b1, b2, b3, u1, u2, u3);
    var m1 := ConsumeOne(h, "queue1", s, ms);
    AckOne(h, "queue1", s, m1.Id());
    var m2 := ConsumeOne(h, "queue1", s, ms[1..]);
    AckOne(h, "queue1", s, m2.Id());
    var m3 := ConsumeOne(h, "queue1", s, ms[2..]);
    AckOne(h, "queue1", s, m3.Id());
    got := [m1.payload.body, m2.payload.body, m3.payload.body];
    last := h.BasicConsume("queue1");
  }

  /** remove_exchange_test, on any host: after delete_exchange no binding of
      the exchange is left. */
  method RemoveExchangeScenario(h: VirtualHost, ename: string, q1: string, q2: string, q3: string)
    returns (bound: seq<bool>)
    modifies h.bmp, h.emp
    ensures bound == [false, false, false]
  {
    h.DeleteExchange(ename);
    var b1 := h.ExistsBinding(ename, q1);
    var b2 := h.ExistsBinding(ename, q2);
    var b3 := h.ExistsBinding(ename, q3);
    bound := [b1, b2, b3];
  }

  /** remove_queue_test, on any host: after delete_queue the queue is bound
      under no exchange and consuming from it yields nothing. */
  method RemoveQueueScenario(h: VirtualHost, qname: string, e1: string, e2: string, e3: string)
    returns (bound: seq<bool>, consumed: Option<Message>)
    requires h.Valid()
    modifies h.mmp, (if qname in h.mmp.queues then {h.mmp.queues[qname]} else {}), h.bmp, h.mqmp
    ensures bound == [false, false, false] && consumed == None
  {
    h.DeleteQueue(qname, true, true);
    var b1 := h.ExistsBinding(e1, qname);
    var b2 := h.ExistsBinding(e2, qname);
    var b3 := h.ExistsBinding(e3, qname);
    bound := [b1, b2, b3];
    consumed := h.BasicConsume(qname);
  }
}
