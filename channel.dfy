// The server channel (mqserver/channel.hpp): the requests of one client
// connection, carried out on a virtual host and the consumer registry. The
// response a request sends back is the returned bool; a consume task pushed to
// the thread pool is the queue name appended to `tasks`; a message handed to a
// consumer's callback is a Delivery appended to `deliveries`.
module Channel {
  import opened Wrappers
  import opened Router
  import opened Args
  import opened Codec
  import opened Mapper
  import opened MessageStore
  import opened Consumer
  import opened VirtualHost
  import Ex = Exchange
  import Bi = Binding
  import Qu = Queue

  /** What the consumer's callback is given: its tag and the message. */
  datatype Delivery = Delivery(tag: string, qname: string, msg: Message)

  /** The queues among the bindings `bs` of an exchange of kind `kind` whose
      binding key accepts the routing key. */
  ghost function Routed(kind: ExchangeType, routingKey: string, bs: Bi.QueueBindings): set<string>
  {
    set q | q in bs && Route(kind, routingKey, bs[q].bindingKey)
  }

  /** The queues a message published on exchange `ename` goes to. */
  ghost function Targets(bindings: Bi.BindingMap, ename: string, kind: ExchangeType, routingKey: string): set<string>
  {
    Routed(kind, routingKey, Bi.InnerOf(bindings, ename))
  }

  /** A queue is a target exactly when it is bound to the exchange with a
      binding key that accepts the routing key. */
  lemma TargetsAreAcceptingBindings(bindings: Bi.BindingMap, ename: string, kind: ExchangeType, routingKey: string)
    ensures forall q :: q in Targets(bindings, ename, kind, routingKey) <==>
      Bi.Entry(bindings, ename, q).Some? && Route(kind, routingKey, Bi.Entry(bindings, ename, q).value.bindingKey)
  {
  }

  /** A Fanout exchange sends to every queue bound to it. */
  lemma FanoutTargetsAll(bindings: Bi.BindingMap, ename: string, routingKey: string)
    ensures Targets(bindings, ename, Fanout, routingKey) == Bi.InnerOf(bindings, ename).Keys
  {
  }

  /** A Direct exchange sends to the queues whose binding key is the routing key. */
  lemma DirectTargetsEqualKey(bindings: Bi.BindingMap, ename: string, routingKey: string)
    ensures forall q :: q in Targets(bindings, ename, Direct, routingKey) <==>
      q in Bi.InnerOf(bindings, ename) && Bi.InnerOf(bindings, ename)[q].bindingKey == routingKey
  {
  }

  /** On a Topic exchange a queue bound with "#" gets every message. */
  lemma TopicHashTargeted(bindings: Bi.BindingMap, ename: string, q: string, routingKey: string)
    requires Bi.Entry(bindings, ename, q).Some? && Bi.Entry(bindings, ename, q).value.bindingKey == "#"
    ensures q in Targets(bindings, ename, Topic, routingKey)
  {
    TopicHashIsFanout(routingKey);
  }

  /** On a host whose bindings join declared exchanges and queues, every
      target is a declared queue, so each one gets the insert. */
  lemma TargetsDeclared(h: VirtualHost, ename: string, kind: ExchangeType, routingKey: string)
    requires h.Linked()
    ensures forall q :: q in Targets(h.bmp.bindings, ename, kind, routingKey) ==> q in h.mqmp.queues
  {
    forall q | q in Targets(h.bmp.bindings, ename, kind, routingKey)
      ensures q in h.mqmp.queues
    {
      assert Bi.Entry(h.bmp.bindings, ename, q).Some?;
    }
  }

  /** `xs` lists every member of `s` exactly once. */
  ghost predicate Enumerates(xs: seq<string>, s: set<string>)
  {
    (forall i, j :: 0 <= i < j < |xs| ==> xs[i] != xs[j]) && (forall x :: x in xs <==> x in s)
  }

  /** The bookkeeping of basic_publish's loop: `pushed` lists, each once, the
      names in `done`, which are the targets the loop has visited. */
  ghost predicate Progress(pushed: seq<string>, done: set<string>, targets: set<string>, rest: set<string>)
  {
    (forall i, j :: 0 <= i < j < |pushed| ==> pushed[i] != pushed[j]) &&
    (forall x :: x in pushed <==> x in done) &&
    (forall x :: x in done <==> x in targets && x !in rest)
  }

  /** Visiting one more name `q` keeps the bookkeeping; a target is pushed. */
  lemma ProgressStep(pushed: seq<string>, done: set<string>, targets: set<string>, rest: set<string>, q: string)
    requires Progress(pushed, done, targets, rest) && q in rest
    ensures q in targets ==> q !in done && Progress(pushed + [q], done + {q}, targets, rest - {q})
    ensures q !in targets ==> Progress(pushed, done, targets, rest - {q})
  {
  }

  /** At the end of the loop the names pushed are the targets, each once. */
  lemma Enumerated(pushed: seq<string>, done: set<string>, targets: set<string>)
    requires Progress(pushed, done, targets, {})
    ensures done == targets && Enumerates(pushed, targets)
  {
  }

  /** The routing key of a publish: the properties' key, or empty without
      properties. */
  function RoutingKey(props: Option<Properties>): (k: string)
    ensures props.None? ==> k == ""
    ensures props.Some? ==> k == props.value.routingKey
  {
    if props.Some? then props.value.routingKey else ""
  }

  /** The message fits the log of whichever queue it goes to, durable or not,
      with the id that queue's insert would give it. */
  ghost predicate FitsEverywhere(props: Option<Properties>, body: string, uuidOf: string -> string)
  {
    forall q, durable: bool :: Fits(Envelope(props, body, durable, uuidOf(q)))
  }

  /** What a publish leaves in the store of queue `n`: the insert of the
      envelope the queue gives the message when the message is routed to a
      declared queue, and the store as it was otherwise. */
  ghost function Published(s: QueueState, n: string, queues: map<string, Qu.MsgQueue>, routed: bool,
                           props: Option<Properties>, body: string, uuidOf: string -> string,
                           wordOk: string -> bool, bodyOk: string -> bool): QueueState
    requires FitsEverywhere(props, body, uuidOf)
  {
    if routed && n in queues
    then Inserted(s, Envelope(props, body, queues[n].durable, uuidOf(n)), wordOk(n), bodyOk(n)).1
    else s
  }

  /** What a publish leaves in every store, by queue name, once it has been
      routed to the queues in `routed`. */
  ghost function PublishedAll(s0: map<string, QueueState>, routed: set<string>, queues: map<string, Qu.MsgQueue>,
                              props: Option<Properties>, body: string, uuidOf: string -> string,
                              wordOk: string -> bool, bodyOk: string -> bool): map<string, QueueState>
    requires FitsEverywhere(props, body, uuidOf)
  {
    map n | n in s0 :: Published(s0[n], n, queues, n in routed, props, body, uuidOf, wordOk, bodyOk)
  }

  /** Publishing to one more queue `q` changes its store alone, and only as
      `Published` says. */
  lemma PublishedStep(s0: map<string, QueueState>, done: set<string>, q: string, queues: map<string, Qu.MsgQueue>,
                      props: Option<Properties>, body: string, uuidOf: string -> string,
                      wordOk: string -> bool, bodyOk: string -> bool,
                      before: map<string, QueueState>, after: map<string, QueueState>)
    requires FitsEverywhere(props, body, uuidOf) && q !in done
    requires before == PublishedAll(s0, done, queues, props, body, uuidOf, wordOk, bodyOk)
    requires after.Keys == before.Keys
    requires forall n :: n in after && n != q ==> after[n] == before[n]
    requires q in after ==> after[q] == Published(before[q], q, queues, true, props, body, uuidOf, wordOk, bodyOk)
    ensures after == PublishedAll(s0, done + {q}, queues, props, body, uuidOf, wordOk, bodyOk)
  {
  }

  /** The state of every message store, by queue name. */
  ghost function States(m: MessageManager): map<string, QueueState>
    reads m, m.queues.Values
  {
    map n | n in m.queues :: m.queues[n].State()
  }

  class Channel {
    const cid: string
    const host: VirtualHost
    const cmp: ConsumerManager
    /** The consumer this channel is, when it subscribed to a queue. */
    var consumer: Option<ConsumerInfo>
    var tasks: seq<string>
    var deliveries: seq<Delivery>

    constructor (cid: string, host: VirtualHost, cmp: ConsumerManager)
      ensures this.cid == cid && this.host == host && this.cmp == cmp
      ensures consumer == None && tasks == [] && deliveries == []
    {
      this.cid, this.host, this.cmp := cid, host, cmp;
      consumer, tasks, deliveries := None, [], [];
    }

    /** The destructor: the channel's consumer, if any, leaves the registry. */
    method Close()
      requires cmp.Valid()
      modifies if consumer.Some? && consumer.value.qname in cmp.queueConsumers
               then {cmp.queueConsumers[consumer.value.qname]} else {}
      ensures cmp.Valid()
      ensures consumer.Some? && consumer.value.qname in cmp.queueConsumers ==>
        var qc := cmp.queueConsumers[consumer.value.qname];
        qc.consumers == WithoutTag(old(qc.consumers), consumer.value.tag) && qc.rrSeq == old(qc.rrSeq)
    {
      if consumer.Some? {
        cmp.Remove(consumer.value.tag, consumer.value.qname);
      }
    }

    /** declare_exchange. */
    method DeclareExchange(name: string, kind: ExchangeType, durable: bool, autoDelete: bool,
                           args: ArgMap, storeOk: bool) returns (ok: bool)
      modifies host.emp
      ensures host.emp.tableExists == old(host.emp.tableExists)
      ensures old(host.Valid()) ==> host.Valid()
      ensures old(host.Consistent()) ==> host.Consistent()
      ensures old(host.Linked()) ==> host.Linked()
      ensures ok <==> name in host.emp.exchanges
      ensures name in old(host.emp.exchanges) ==> host.emp.exchanges == old(host.emp.exchanges)
      ensures name !in old(host.emp.exchanges) ==>
        (ok <==> !durable || (host.emp.tableExists && storeOk)) &&
        host.emp.exchanges == if ok then old(host.emp.exchanges)[name := Ex.Exchange(name, kind, durable, autoDelete, args)]
                              else old(host.emp.exchanges)
    {
      ok := host.DeclareExchange(name, kind, durable, autoDelete, args, storeOk);
    }

    /** delete_exchange: always answered true. */
    method DeleteExchange(name: string) returns (ok: bool)
      modifies host.bmp, host.emp
      ensures old(host.Valid()) ==> host.Valid()
      ensures old(host.Consistent()) ==> host.Consistent()
      ensures old(host.Linked()) ==> host.Linked()
      ensures ok && host.emp.exchanges == old(host.emp.exchanges) - {name}
      ensures host.bmp.bindings == old(host.bmp.bindings) - {name}
      ensures forall q :: Bi.Entry(host.bmp.bindings, name, q).None?
    {
      host.DeleteExchange(name);
      ok := true;
    }

    /** declare_queue: the queue's consumer set is set up only when the host
        declared the queue. */
    method DeclareQueue(qname: string, durable: bool, exclusive: bool, autoDelete: bool, args: ArgMap,
                        storeOk: bool, files: LogFiles, createOk: bool, failAt: nat, renameOk: bool)
      returns (ok: bool)
      requires host.Valid() && cmp.Valid()
      modifies host.mmp, host.mqmp, cmp
      ensures host.Valid() && cmp.Valid()
      ensures host.mqmp.tableExists == old(host.mqmp.tableExists)
      ensures old(host.Consistent()) ==> host.Consistent()
      ensures old(host.Linked()) ==> host.Linked()
      ensures ok <==> qname in host.mqmp.queues
      ensures qname in host.mmp.queues
      ensures qname in old(host.mmp.queues) ==> host.mmp.queues == old(host.mmp.queues)
      ensures qname !in old(host.mmp.queues) ==>
        host.mmp.queues == old(host.mmp.queues)[qname := host.mmp.queues[qname]] && fresh(host.mmp.queues[qname]) &&
        host.mmp.queues[qname].State() == Recovered(Created(files, createOk), createOk, failAt, renameOk)
      ensures forall n :: n in old(host.mmp.queues) ==> host.mmp.queues[n].State() == old(host.mmp.queues[n].State())
      ensures qname in old(host.mqmp.queues) ==> host.mqmp.queues == old(host.mqmp.queues)
      ensures qname !in old(host.mqmp.queues) ==>
        (ok <==> !durable || (host.mqmp.tableExists && storeOk)) &&
        host.mqmp.queues == if ok then old(host.mqmp.queues)[qname := Qu.MsgQueue(qname, durable, exclusive, autoDelete, args)]
                            else old(host.mqmp.queues)
      ensures !ok ==> cmp.queueConsumers == old(cmp.queueConsumers)
      ensures ok && qname in old(cmp.queueConsumers) ==> cmp.queueConsumers == old(cmp.queueConsumers)
      ensures ok && qname !in old(cmp.queueConsumers) ==>
        qname in cmp.queueConsumers && cmp.queueConsumers == old(cmp.queueConsumers)[qname := cmp.queueConsumers[qname]] &&
        fresh(cmp.queueConsumers[qname]) && cmp.queueConsumers[qname].consumers == []
    {
      ok := host.DeclareQueue(qname, durable, exclusive, autoDelete, args, storeOk, files, createOk, failAt, renameOk);
      if !ok {
        return false;
      }
      InitConsumers(qname);
    }

    /** The queue's consumer set is set up; no message store changes. */
    method InitConsumers(qname: string)
      requires cmp.Valid()
      modifies cmp
      ensures cmp.Valid()
      ensures qname in old(cmp.queueConsumers) ==> cmp.queueConsumers == old(cmp.queueConsumers)
      ensures qname !in old(cmp.queueConsumers) ==>
        qname in cmp.queueConsumers && cmp.queueConsumers == old(cmp.queueConsumers)[qname := cmp.queueConsumers[qname]] &&
        fresh(cmp.queueConsumers[qname]) && cmp.queueConsumers[qname].consumers == []
      ensures forall n :: n in host.mmp.queues ==> host.mmp.queues[n].State() == old(host.mmp.queues[n].State())
      ensures host.Valid() == old(host.Valid()) && host.Consistent() == old(host.Consistent()) && host.Linked() == old(host.Linked())
    {
      cmp.InitQueueConsumer(qname);
    }

    /** delete_queue: the consumer set goes first, then the queue with its
        store and its bindings. */
    method DeleteQueue(qname: string, dataOk: bool, tmpOk: bool) returns (ok: bool)
      requires host.Valid() && cmp.Valid()
      modifies cmp, host.mmp, (if qname in host.mmp.queues then {host.mmp.queues[qname]} else {}), host.bmp, host.mqmp
      ensures host.Valid() && cmp.Valid()
      ensures old(host.Consistent()) ==> host.Consistent()
      ensures old(host.Linked()) ==> host.Linked()
      ensures ok && cmp.queueConsumers == old(cmp.queueConsumers) - {qname}
      ensures host.mqmp.queues == old(host.mqmp.queues) - {qname} && host.mmp.queues == old(host.mmp.queues) - {qname}
      ensures qname in old(host.mmp.queues) ==>
        old(host.mmp.queues)[qname].State() == Cleared(old(host.mmp.queues[qname].State()), dataOk, tmpOk)
      ensures host.bmp.bindings == Bi.WithoutQueue(old(host.bmp.bindings), qname)
      ensures forall e :: Bi.Entry(host.bmp.bindings, e, qname).None?
    {
      cmp.DestroyQueueConsumer(qname);
      host.DeleteQueue(qname, dataOk, tmpOk);
      ok := true;
    }

    /** bind. */
    method Bind(ename: string, qname: string, key: string, storeOk: bool) returns (ok: bool)
      modifies host.bmp
      ensures host.bmp.tableExists == old(host.bmp.tableExists)
      ensures old(host.Valid()) ==> host.Valid()
      ensures old(host.Consistent()) ==> host.Consistent()
      ensures old(host.Linked()) ==> host.Linked()
      ensures ok <==> ename in host.emp.exchanges && qname in host.mqmp.queues && Bi.Entry(host.bmp.bindings, ename, qname).Some?
      ensures ename !in host.emp.exchanges || qname !in host.mqmp.queues ==>
        host.bmp.bindings == old(host.bmp.bindings) && host.bmp.table == old(host.bmp.table)
      ensures ename in host.emp.exchanges && qname in host.mqmp.queues ==>
        var durable := host.emp.exchanges[ename].durable && host.mqmp.queues[qname].durable;
        (Bi.Entry(old(host.bmp.bindings), ename, qname).Some? ==>
           host.bmp.bindings == old(host.bmp.bindings) && host.bmp.table == old(host.bmp.table)) &&
        (Bi.Entry(old(host.bmp.bindings), ename, qname).None? && durable && !(host.bmp.tableExists && storeOk) ==>
           !ok && host.bmp.bindings == old(host.bmp.bindings) && host.bmp.table == old(host.bmp.table)) &&
        (Bi.Entry(old(host.bmp.bindings), ename, qname).None? && (!durable || (host.bmp.tableExists && storeOk)) ==>
           host.bmp.bindings ==
             old(host.bmp.bindings)[ename := Bi.InnerOf(old(host.bmp.bindings), ename)[qname := Bi.Binding(ename, qname, key)]] &&
           host.bmp.table == old(host.bmp.table) + (if durable then [Bi.Binding(ename, qname, key)] else []))
    {
      ok := host.Bind(ename, qname, key, storeOk);
    }

    /** unbind: always answered true. */
    method Unbind(ename: string, qname: string) returns (ok: bool)
      modifies host.bmp
      ensures old(host.Valid()) ==> host.Valid()
      ensures old(host.Linked()) ==> host.Linked()
      ensures old(host.Consistent()) ==> host.Consistent()
      ensures ok && Bi.Entry(host.bmp.bindings, ename, qname).None?
      ensures Bi.Entry(old(host.bmp.bindings), ename, qname).None? ==> host.bmp.bindings == old(host.bmp.bindings)
      ensures Bi.Entry(old(host.bmp.bindings), ename, qname).Some? ==>
        host.bmp.bindings == old(host.bmp.bindings)[ename := old(host.bmp.bindings)[ename] - {qname}]
    {
      host.Unbind(ename, qname);
      ok := true;
    }

    /** basic_publish: false, and nothing published, for an unknown exchange.
        Otherwise every queue bound to the exchange whose binding key accepts
        the routing key gets the message and one consume task, and no other
        queue gets either. */
    method BasicPublish(ename: string, props: Option<Properties>, body: string, uuidOf: string -> string,
                        wordOk: string -> bool, bodyOk: string -> bool) returns (ok: bool)
      requires host.Valid()
      requires FitsEverywhere(props, body, uuidOf)
      modifies this, host.mmp.queues.Values
      ensures host.Valid()
      ensures deliveries == old(deliveries) && consumer == old(consumer)
      ensures ok <==> ename in host.emp.exchanges
      ensures !ok ==> tasks == old(tasks)
      ensures !ok ==> forall n :: n in host.mmp.queues ==> host.mmp.queues[n].State() == old(host.mmp.queues[n].State())
      ensures ok ==>
        var targets := Targets(host.bmp.bindings, ename, host.emp.exchanges[ename].kind, RoutingKey(props));
        |tasks| >= |old(tasks)| && tasks[..|old(tasks)|] == old(tasks) && Enumerates(tasks[|old(tasks)|..], targets)
      ensures ok ==>
        var targets := Targets(host.bmp.bindings, ename, host.emp.exchanges[ename].kind, RoutingKey(props));
        forall n :: n in host.mmp.queues ==>
          host.mmp.queues[n].State() == Published(old(host.mmp.queues[n].State()), n, host.mqmp.queues, n in targets,
                                                  props, body, uuidOf, wordOk, bodyOk)
    {
      var ep := host.SelectExchange(ename);
      if ep.None? {
        return false;
      }
      var bs := host.ExchangeBindings(ename);
      var pushed := Deliver(ep.value.kind, RoutingKey(props), bs, props, body, uuidOf, wordOk, bodyOk);
      tasks := tasks + pushed;
      assert tasks[..|old(tasks)|] == old(tasks) && tasks[|old(tasks)|..] == pushed;
      ok := true;
    }

    /** The loop of basic_publish: each binding whose key accepts the routing
        key gets the message published to its queue, and its queue name is
        pushed as a consume task. */
    method Deliver(kind: ExchangeType, routingKey: string, bs: Bi.QueueBindings,
                   props: Option<Properties>, body: string, uuidOf: string -> string,
                   wordOk: string -> bool, bodyOk: string -> bool) returns (pushed: seq<string>)
      requires host.Valid() && FitsEverywhere(props, body, uuidOf)
      modifies host.mmp.queues.Values
      ensures host.Valid()
      ensures Enumerates(pushed, Routed(kind, routingKey, bs))
      ensures forall n :: n in host.mmp.queues ==>
        host.mmp.queues[n].State() == Published(old(host.mmp.queues[n].State()), n, host.mqmp.queues,
                                                n in Routed(kind, routingKey, bs), props, body, uuidOf, wordOk, bodyOk)
    {
      ghost var targets := Routed(kind, routingKey, bs);
      ghost var s0 := States(host.mmp);
      ghost var done;
      pushed, done := PublishEach(kind, routingKey, bs, props, body, uuidOf, wordOk, bodyOk);
      Enumerated(pushed, done, targets);
      forall n | n in host.mmp.queues
        ensures host.mmp.queues[n].State() == Published(old(host.mmp.queues[n].State()), n, host.mqmp.queues,
                                                        n in targets, props, body, uuidOf, wordOk, bodyOk)
      {
        assert host.mmp.queues[n].State() == States(host.mmp)[n];
        assert old(host.mmp.queues[n].State()) == s0[n];
      }
    }

    /** The loop of Deliver, over the bindings in any order: the names pushed so
        far are the routed ones visited, each once, and exactly their stores
        have had the message published. */
    method PublishEach(kind: ExchangeType, routingKey: string, bs: Bi.QueueBindings,
                       props: Option<Properties>, body: string, uuidOf: string -> string,
                       wordOk: string -> bool, bodyOk: string -> bool)
      returns (pushed: seq<string>, ghost done: set<string>)
      requires host.Valid() && FitsEverywhere(props, body, uuidOf)
      modifies host.mmp.queues.Values
      ensures host.Valid()
      ensures Progress(pushed, done, Routed(kind, routingKey, bs), {})
      ensures States(host.mmp) == PublishedAll(old(States(host.mmp)), done, host.mqmp.queues, props, body, uuidOf, wordOk, bodyOk)
    {
      ghost var targets := Routed(kind, routingKey, bs);
      pushed := [];
      ghost var s0 := States(host.mmp);
      done := {};
      var rest := bs.Keys;
      while rest != {}
        invariant rest <= bs.Keys && host.Valid()
        invariant Progress(pushed, done, targets, rest)
        invariant States(host.mmp) == PublishedAll(s0, done, host.mqmp.queues, props, body, uuidOf, wordOk, bodyOk)
        decreases |rest|
      {
        var q :| q in rest;
        ProgressStep(pushed, done, targets, rest, q);
        if Route(kind, routingKey, bs[q].bindingKey) {
          assert q in targets;
          PublishTo(q, s0, done, props, body, uuidOf, wordOk, bodyOk);
          pushed := pushed + [q];
          done := done + {q};
        }
        rest := rest - {q};
      }
    }

    /** One publish of basic_publish's loop: the message goes into the store
        of queue `q`, which has not had it yet; the other stores are untouched. */
    method PublishTo(q: string, ghost s0: map<string, QueueState>, ghost done: set<string>,
                     props: Option<Properties>, body: string, uuidOf: string -> string,
                     wordOk: string -> bool, bodyOk: string -> bool)
      requires host.Valid() && q !in done
      requires FitsEverywhere(props, body, uuidOf)
      requires States(host.mmp) == PublishedAll(s0, done, host.mqmp.queues, props, body, uuidOf, wordOk, bodyOk)
      modifies if q in host.mmp.queues then {host.mmp.queues[q]} else {}
      ensures host.Valid()
      ensures States(host.mmp) == PublishedAll(s0, done + {q}, host.mqmp.queues, props, body, uuidOf, wordOk, bodyOk)
    {
      ghost var before := States(host.mmp);
      var _ := host.BasicPublish(q, props, body, uuidOf(q), wordOk(q), bodyOk(q));
      ghost var after := States(host.mmp);
      forall n | n in after && n != q
        ensures after[n] == before[n]
      {
        assert host.mmp.queues[n].name != q;
      }
      PublishedStep(s0, done, q, host.mqmp.queues, props, body, uuidOf, wordOk, bodyOk, before, after);
    }

    /** consume, the job basic_publish pushes onto the thread pool: the queue's
        front message goes to the consumer the round robin picks, and is
        acknowledged at once when that consumer acknowledges automatically. With no message nothing
        happens; with no consumer the message stays waiting for an
        acknowledgement. */
    method Consume(qname: string, writeOk: bool, createOk: bool, failAt: nat, renameOk: bool)
      requires cmp.Valid()
      modifies this, (if qname in host.mmp.queues then {host.mmp.queues[qname]} else {}),
               (if qname in cmp.queueConsumers then {cmp.queueConsumers[qname]} else {})
      ensures cmp.Valid() && tasks == old(tasks) && consumer == old(consumer)
      ensures qname !in host.mmp.queues ==> deliveries == old(deliveries)
      ensures qname !in host.mmp.queues && qname in cmp.queueConsumers ==>
        cmp.queueConsumers[qname].consumers == old(cmp.queueConsumers[qname].consumers) &&
        cmp.queueConsumers[qname].rrSeq == old(cmp.queueConsumers[qname].rrSeq)
      ensures qname in host.mmp.queues ==>
        var front := FrontOf(old(host.mmp.queues[qname].State()));
        var s := host.mmp.queues[qname].State();
        (front.0.None? ==> s == front.1 && deliveries == old(deliveries)) &&
        (front.0.Some? && (qname !in cmp.queueConsumers || old(cmp.queueConsumers[qname].consumers) == []) ==>
           s == front.1 && deliveries == old(deliveries))
      ensures qname in host.mmp.queues && qname in cmp.queueConsumers ==>
        var front := FrontOf(old(host.mmp.queues[qname].State()));
        var s := host.mmp.queues[qname].State();
        var qc := cmp.queueConsumers[qname];
        qc.consumers == old(qc.consumers) &&
        (front.0.None? || old(qc.consumers) == [] ==> qc.rrSeq == old(qc.rrSeq)) &&
        (front.0.Some? && old(qc.consumers) != [] ==>
           var c := qc.consumers[old(qc.rrSeq) % |qc.consumers|];
           qc.rrSeq == (old(qc.rrSeq) + 1) % SeqLimit &&
           deliveries == old(deliveries) + [Delivery(c.tag, qname, front.0.value)] &&
           s == if c.autoAck then Acked(front.1, front.0.value.Id(), writeOk, createOk, failAt, renameOk) else front.1)
    {
      var mp := host.BasicConsume(qname);
      if mp.None? {
        return;
      }
      Dispatch(qname, mp.value, writeOk, createOk, failAt, renameOk);
    }

    /** The rest of consume once the store has handed out m: the queue's next
        consumer, if there is one, gets the delivery, and an automatic
        acknowledgement follows. */
    method Dispatch(qname: string, m: Message, writeOk: bool, createOk: bool, failAt: nat, renameOk: bool)
      requires cmp.Valid() && qname in host.mmp.queues
      modifies this, host.mmp.queues[qname], (if qname in cmp.queueConsumers then {cmp.queueConsumers[qname]} else {})
      ensures cmp.Valid() && tasks == old(tasks) && consumer == old(consumer)
      ensures qname !in cmp.queueConsumers || old(cmp.queueConsumers[qname].consumers) == [] ==>
        host.mmp.queues[qname].State() == old(host.mmp.queues[qname].State()) && deliveries == old(deliveries)
      ensures qname in cmp.queueConsumers ==>
        var qc := cmp.queueConsumers[qname];
        qc.consumers == old(qc.consumers) &&
        (old(qc.consumers) == [] ==> qc.rrSeq == old(qc.rrSeq)) &&
        (old(qc.consumers) != [] ==>
           var c := qc.consumers[old(qc.rrSeq) % |qc.consumers|];
           qc.rrSeq == (old(qc.rrSeq) + 1) % SeqLimit &&
           deliveries == old(deliveries) + [Delivery(c.tag, qname, m)] &&
           host.mmp.queues[qname].State() ==
             if c.autoAck then Acked(old(host.mmp.queues[qname].State()), m.Id(), writeOk, createOk, failAt, renameOk)
             else old(host.mmp.queues[qname].State()))
    {
      ghost var store := host.mmp.queues[qname];
      ghost var rest := store.State();
      var cp := cmp.Choose(qname);
      assert store.State() == rest;
      if cp.None? {
        return;
      }
      deliveries := deliveries + [Delivery(cp.value.tag, qname, m)];
      assert store.State() == rest;
      if cp.value.autoAck {
        host.BasicAck(qname, m.Id(), writeOk, createOk, failAt, renameOk);
      }
    }
  }
}
