// The consumer registry: per queue, the consumers subscribed to it, chosen in
// turn; and the manager that maps queue names to those per-queue sets.
module Consumer {
  import opened Wrappers

  /** A subscription: its tag, the queue it reads and whether deliveries to it
      are acknowledged at once. The delivery callback is not part of the model. */
  datatype ConsumerInfo = ConsumerInfo(tag: string, qname: string, autoAck: bool)

  /** The round-robin sequence number is a 64-bit unsigned counter. */
  const SeqLimit: nat := 0x1_0000_0000_0000_0000

  predicate HasTag(cs: seq<ConsumerInfo>, tag: string)
  {
    exists i :: 0 <= i < |cs| && cs[i].tag == tag
  }

  /** No two consumers of one queue share a tag. */
  predicate UniqueTags(cs: seq<ConsumerInfo>)
  {
    forall i, j :: 0 <= i < j < |cs| ==> cs[i].tag != cs[j].tag
  }

  /** The position of the first consumer with the tag. */
  function FirstWithTag(cs: seq<ConsumerInfo>, tag: string): (r: Option<nat>)
    ensures r.Some? ==> r.value < |cs| && cs[r.value].tag == tag && forall j :: 0 <= j < r.value ==> cs[j].tag != tag
    ensures r.None? <==> !HasTag(cs, tag)
  {
    if cs == [] then None
    else if cs[0].tag == tag then Some(0)
    else
      var r := FirstWithTag(cs[1..], tag);
      assert r.None? ==> forall i :: 0 < i < |cs| ==> cs[1..][i - 1] == cs[i];
      if r.Some? then Some(r.value + 1) else None
  }

  /** The list left after erasing the first consumer with the tag. */
  function WithoutTag(cs: seq<ConsumerInfo>, tag: string): seq<ConsumerInfo>
  {
    match FirstWithTag(cs, tag)
    case None => cs
    case Some(i) => cs[..i] + cs[i + 1..]
  }

  /** Erasing one consumer keeps the order of the others and, when tags are
      unique, removes exactly that tag. */
  lemma WithoutTagMembers(cs: seq<ConsumerInfo>, tag: string, x: string)
    requires UniqueTags(cs)
    ensures UniqueTags(WithoutTag(cs, tag))
    ensures HasTag(WithoutTag(cs, tag), x) <==> HasTag(cs, x) && x != tag
    ensures |WithoutTag(cs, tag)| == if HasTag(cs, tag) then |cs| - 1 else |cs|
  {
    match FirstWithTag(cs, tag)
    case None =>
    case Some(i) =>
      ErasedUnique(cs, i);
      ErasedHas(cs, i, x);
  }

  lemma ErasedUnique(cs: seq<ConsumerInfo>, i: nat)
    requires i < |cs| && UniqueTags(cs)
    ensures UniqueTags(cs[..i] + cs[i + 1..])
  {
    var r := cs[..i] + cs[i + 1..];
    ErasedAt(cs, i);
    forall j1, j2 | 0 <= j1 < j2 < |r|
      ensures r[j1].tag != r[j2].tag
    {
      assert Skip(i, j1) < Skip(i, j2);
    }
  }

  /** With unique tags, erasing position `i` loses exactly the tag there. */
  lemma ErasedHas(cs: seq<ConsumerInfo>, i: nat, x: string)
    requires i < |cs| && UniqueTags(cs)
    ensures HasTag(cs[..i] + cs[i + 1..], x) <==> HasTag(cs, x) && x != cs[i].tag
  {
    var r := cs[..i] + cs[i + 1..];
    ErasedAt(cs, i);
    if HasTag(r, x) {
      var j :| 0 <= j < |r| && r[j].tag == x;
      assert cs[Skip(i, j)].tag == x;
    }
    if HasTag(cs, x) && x != cs[i].tag {
      var j :| 0 <= j < |cs| && cs[j].tag == x;
      var k := if j < i then j else j - 1;
      assert Skip(i, k) == j;
      assert r[k].tag == x;
    }
  }

  lemma ErasedAt(cs: seq<ConsumerInfo>, i: nat)
    requires i < |cs|
    ensures |cs[..i] + cs[i + 1..]| == |cs| - 1
    ensures forall j :: 0 <= j < |cs| - 1 ==> (cs[..i] + cs[i + 1..])[j] == cs[Skip(i, j)]
  {
  }

  /** The position in the original list of position `j` once `i` is erased. */
  function Skip(i: nat, j: nat): (k: nat)
    ensures k == j || k == j + 1
    ensures k != i && (j < i <==> k < i)
  {
    if j < i then j else j + 1
  }

  /** Appending a consumer with a new tag keeps tags unique. */
  lemma AppendUnique(cs: seq<ConsumerInfo>, c: ConsumerInfo)
    requires !HasTag(cs, c.tag)
    ensures UniqueTags(cs) ==> UniqueTags(cs + [c])
    ensures HasTag(cs + [c], c.tag)
  {
    assert (cs + [c])[|cs|] == c;
    if UniqueTags(cs) {
      forall i, j | 0 <= i < j < |cs + [c]|
        ensures (cs + [c])[i].tag != (cs + [c])[j].tag
      {
        if j == |cs| {
          assert (cs + [c])[i] == cs[i];
        }
      }
    }
  }

  /** The number of further choices until the counter, now at `start`, picks
      position `i` of `n` consumers. */
  function TurnsUntil(n: nat, start: nat, i: nat): (k: nat)
    requires 0 < n && i < n
    ensures k < n && (start + k) % n == i
  {
    var r := start % n;
    var q := start / n;
    assert start == q * n + r;
    if r <= i then
      assert start + (i - r) == q * n + i;
      Mod(q, n, i);
      i - r
    else
      assert start + (i - r + n) == (q + 1) * n + i;
      Mod(q + 1, n, i);
      i - r + n
  }

  /** The counter after one choice: one more, modulo 2^64. */
  function Next(s: nat): (t: nat)
    ensures t < SeqLimit
    ensures s + 1 < SeqLimit ==> t == s + 1
  {
    (s + 1) % SeqLimit
  }

  /** The counter after `k` further choices. */
  function Advanced(s: nat, k: nat): (t: nat)
    decreases k
  {
    if k == 0 then s else Next(Advanced(s, k - 1))
  }

  lemma {:induction false} AdvancedNoWrap(s: nat, k: nat)
    requires s + k < SeqLimit
    ensures Advanced(s, k) == s + k
    decreases k
  {
    if k > 0 {
      AdvancedNoWrap(s, k - 1);
    }
  }

  /** Round-robin fairness over a fixed set of `n` consumers whose counter does
      not wrap: starting from counter `start`, the choice made after
      TurnsUntil(n, start, i) further choices is position `i`, and no earlier
      choice is. */
  lemma RoundRobinTurn(n: nat, start: nat, i: nat)
    requires 0 < n && i < n && start + n < SeqLimit
    ensures Advanced(start, TurnsUntil(n, start, i)) % n == i
    ensures forall j :: 0 <= j < TurnsUntil(n, start, i) ==> Advanced(start, j) % n != i
  {
    var k := TurnsUntil(n, start, i);
    AdvancedNoWrap(start, k);
    forall j | 0 <= j < k
      ensures Advanced(start, j) % n != i
    {
      NotYetTurn(n, start, k, j);
    }
  }

  /** Fewer than `n` choices that do not wrap never bring the counter back to
      the same position modulo `n`. */
  lemma NotYetTurn(n: nat, start: nat, k: nat, j: nat)
    requires j < k < n && start + k < SeqLimit
    ensures Advanced(start, j) % n != (start + k) % n
  {
    AdvancedNoWrap(start, j);
    ModShift(start + j, k - j, n);
  }

  /** Moving fewer than `n` steps on always changes the remainder modulo `n`. */
  lemma ModShift(x: nat, d: nat, n: nat)
    requires 0 < d < n
    ensures (x + d) % n != x % n
  {
    var r := x % n;
    var q := x / n;
    assert x == q * n + r;
    if r + d < n {
      assert x + d == q * n + (r + d);
      Mod(q, n, r + d);
    } else {
      assert x + d == (q + 1) * n + (r + d - n);
      Mod(q + 1, n, r + d - n);
    }
  }

  lemma {:induction false} MulAtLeast(a: nat, n: nat)
    requires a >= 1
    ensures a * n >= n
  {
    if a > 1 {
      MulAtLeast(a - 1, n);
      assert a * n == (a - 1) * n + n;
    }
  }

  /** Division by `n` leaves the remainder of any multiple of `n` plus `r`. */
  lemma Mod(q: nat, n: nat, r: nat)
    requires 0 <= r < n
    ensures (q * n + r) % n == r
  {
    var x := q * n + r;
    var q', r' := x / n, x % n;
    assert x == q' * n + r';
    if q' < q {
      MulAtLeast(q - q', n);
      assert false;
    } else if q' > q {
      MulAtLeast(q' - q, n);
      assert false;
    }
  }

  /** The consumers subscribed to one queue (queue_consumer). */
  class QueueConsumer {
    const qname: string
    var consumers: seq<ConsumerInfo>
    var rrSeq: nat

    ghost predicate Valid()
      reads this
    {
      UniqueTags(consumers) && rrSeq < SeqLimit
    }

    constructor (qname: string)
      ensures this.qname == qname && consumers == [] && rrSeq == 0 && Valid()
    {
      this.qname := qname;
      consumers := [];
      rrSeq := 0;
    }

    /** create: a tag already present is refused and nothing changes; a new
        one is appended at the end and returned. */
    method Create(tag: string, queueName: string, autoAck: bool) returns (r: Option<ConsumerInfo>)
      modifies this
      ensures rrSeq == old(rrSeq)
      ensures HasTag(old(consumers), tag) ==> r == None && consumers == old(consumers)
      ensures !HasTag(old(consumers), tag) ==>
        r == Some(ConsumerInfo(tag, queueName, autoAck)) && consumers == old(consumers) + [r.value]
      ensures old(Valid()) ==> Valid()
    {
      var i := 0;
      while i < |consumers|
        invariant 0 <= i <= |consumers|
        invariant forall j :: 0 <= j < i ==> consumers[j].tag != tag
      {
        if consumers[i].tag == tag {
          return None;
        }
        i := i + 1;
      }
      var c := ConsumerInfo(tag, queueName, autoAck);
      AppendUnique(consumers, c);
      consumers := consumers + [c];
      r := Some(c);
    }

    /** remove: the first consumer with the tag is erased; an unknown tag
        changes nothing. */
    method Remove(tag: string)
      modifies this
      ensures consumers == WithoutTag(old(consumers), tag) && rrSeq == old(rrSeq)
    {
      var i := 0;
      while i < |consumers|
        invariant 0 <= i <= |consumers|
        invariant forall j :: 0 <= j < i ==> consumers[j].tag != tag
      {
        if consumers[i].tag == tag {
          assert FirstWithTag(consumers, tag) == Some(i);
          consumers := consumers[..i] + consumers[i + 1..];
          return;
        }
        i := i + 1;
      }
    }

    /** rr_choose: nothing when there is no consumer; otherwise the consumer
        at the sequence number modulo their count, and the number advances. */
    method RrChoose() returns (r: Option<ConsumerInfo>)
      modifies this
      ensures consumers == old(consumers)
      ensures old(consumers) == [] ==> r == None && rrSeq == old(rrSeq)
      ensures old(consumers) != [] ==>
        r == Some(consumers[old(rrSeq) % |consumers|]) && rrSeq == Next(old(rrSeq))
    {
      if |consumers| == 0 {
        return None;
      }
      var idx := rrSeq % |consumers|;
      rrSeq := Next(rrSeq);
      r := Some(consumers[idx]);
    }

    method Empty() returns (b: bool)
      ensures b <==> consumers == []
    {
      b := |consumers| == 0;
    }

    method Exists(tag: string) returns (b: bool)
      ensures b <==> HasTag(consumers, tag)
    {
      var i := 0;
      while i < |consumers|
        invariant 0 <= i <= |consumers|
        invariant forall j :: 0 <= j < i ==> consumers[j].tag != tag
      {
        if consumers[i].tag == tag {
          return true;
        }
        i := i + 1;
      }
      b := false;
    }

    /** clear: no consumers, and the sequence starts again at 0. */
    method Clear()
      modifies this
      ensures consumers == [] && rrSeq == 0 && Valid()
    {
      consumers := [];
      rrSeq := 0;
    }
  }

  /** The registry of per-queue consumer sets (consumer_manager). */
  class ConsumerManager {
    var queueConsumers: map<string, QueueConsumer>

    /** Each set sits under its own queue's name, so distinct names hold
        distinct sets. */
    ghost predicate Valid()
      reads this, queueConsumers.Values
    {
      forall n :: n in queueConsumers ==> queueConsumers[n].qname == n && queueConsumers[n].Valid()
    }

    constructor ()
      ensures queueConsumers == map[] && Valid()
    {
      queueConsumers := map[];
    }

    /** init_queue_consumer: idempotent, an existing set is kept as it is. */
    method InitQueueConsumer(qname: string)
      requires Valid()
      modifies this
      ensures Valid()
      ensures qname in old(queueConsumers) ==> queueConsumers == old(queueConsumers)
      ensures qname !in old(queueConsumers) ==>
        qname in queueConsumers && queueConsumers == old(queueConsumers)[qname := queueConsumers[qname]] &&
        fresh(queueConsumers[qname]) && queueConsumers[qname].consumers == [] && queueConsumers[qname].rrSeq == 0
    {
      if qname in queueConsumers {
        return;
      }
      var qc := new QueueConsumer(qname);
      queueConsumers := queueConsumers[qname := qc];
    }

    method DestroyQueueConsumer(qname: string)
      requires Valid()
      modifies this
      ensures Valid() && queueConsumers == old(queueConsumers) - {qname}
    {
      queueConsumers := queueConsumers - {qname};
    }

    /** create: no consumer for a queue without a set. */
    method Create(tag: string, qname: string, autoAck: bool) returns (r: Option<ConsumerInfo>)
      requires Valid()
      modifies if qname in queueConsumers then {queueConsumers[qname]} else {}
      ensures Valid()
      ensures qname !in queueConsumers ==> r == None
      ensures qname in queueConsumers ==>
        var qc := queueConsumers[qname];
        qc.rrSeq == old(qc.rrSeq) &&
        (HasTag(old(qc.consumers), tag) ==> r == None && qc.consumers == old(qc.consumers)) &&
        (!HasTag(old(qc.consumers), tag) ==>
          r == Some(ConsumerInfo(tag, qname, autoAck)) && qc.consumers == old(qc.consumers) + [r.value])
    {
      if qname !in queueConsumers {
        return None;
      }
      var qc := queueConsumers[qname];
      r := qc.Create(tag, qname, autoAck);
    }

    /** remove: nothing for a queue without a set. */
    method Remove(tag: string, qname: string)
      requires Valid()
      modifies if qname in queueConsumers then {queueConsumers[qname]} else {}
      ensures Valid()
      ensures qname in queueConsumers ==>
        var qc := queueConsumers[qname];
        qc.consumers == WithoutTag(old(qc.consumers), tag) && qc.rrSeq == old(qc.rrSeq)
    {
      if qname !in queueConsumers {
        return;
      }
      var qc := queueConsumers[qname];
      WithoutTagMembers(qc.consumers, tag, tag);
      qc.Remove(tag);
    }

    /** choose: no consumer for a queue without a set; otherwise the queue's
        round-robin choice. */
    method Choose(qname: string) returns (r: Option<ConsumerInfo>)
      requires Valid()
      modifies if qname in queueConsumers then {queueConsumers[qname]} else {}
      ensures Valid()
      ensures qname !in queueConsumers ==> r == None
      ensures qname in queueConsumers ==>
        var qc := queueConsumers[qname];
        qc.consumers == old(qc.consumers) &&
        (old(qc.consumers) == [] ==> r == None && qc.rrSeq == old(qc.rrSeq)) &&
        (old(qc.consumers) != [] ==>
          r == Some(qc.consumers[old(qc.rrSeq) % |qc.consumers|]) && qc.rrSeq == (old(qc.rrSeq) + 1) % SeqLimit)
    {
      if qname !in queueConsumers {
        return None;
      }
      var qc := queueConsumers[qname];
      r := qc.RrChoose();
    }

    /** empty: false for a queue without a set. */
    method Empty(qname: string) returns (b: bool)
      ensures b <==> qname in queueConsumers && queueConsumers[qname].consumers == []
    {
      if qname !in queueConsumers {
        return false;
      }
      b := queueConsumers[qname].Empty();
    }

    /** exists: false for a queue without a set. */
    method Exists(tag: string, qname: string) returns (b: bool)
      ensures b <==> qname in queueConsumers && HasTag(queueConsumers[qname].consumers, tag)
    {
      if qname !in queueConsumers {
        return false;
      }
      b := queueConsumers[qname].Exists(tag);
    }

    method Clear()
      modifies this
      ensures queueConsumers == map[] && Valid()
    {
      queueConsumers := map[];
    }
  }

  /** The three creates of consumer_test.cc on a queue whose set is empty. */
  method CreateThree(cm: ConsumerManager, q: string, t1: string, t2: string, t3: string)
    requires cm.Valid() && q in cm.queueConsumers && cm.queueConsumers[q].consumers == []
    requires t1 != t2 && t1 != t3 && t2 != t3
    modifies cm.queueConsumers[q]
    ensures cm.Valid() && cm.queueConsumers[q].rrSeq == old(cm.queueConsumers[q].rrSeq)
    ensures cm.queueConsumers[q].consumers == [ConsumerInfo(t1, q, false), ConsumerInfo(t2, q, false), ConsumerInfo(t3, q, false)]
  {
    var qc := cm.queueConsumers[q];
    var _ := cm.Create(t1, q, false);
    var _ := cm.Create(t2, q, false);
    assert qc.consumers == [ConsumerInfo(t1, q, false), ConsumerInfo(t2, q, false)];
    assert !HasTag(qc.consumers, t3);
    var _ := cm.Create(t3, q, false);
  }

  /** The remove test of consumer_test.cc: the first of three consumers goes. */
  method RemoveFirst(cm: ConsumerManager, q: string, t1: string, t2: string, t3: string) returns (removed: seq<bool>)
    requires cm.Valid() && q in cm.queueConsumers && t1 != t2 && t1 != t3
    requires cm.queueConsumers[q].consumers == [ConsumerInfo(t1, q, false), ConsumerInfo(t2, q, false), ConsumerInfo(t3, q, false)]
    modifies cm.queueConsumers[q]
    ensures cm.Valid() && cm.queueConsumers[q].rrSeq == old(cm.queueConsumers[q].rrSeq)
    ensures cm.queueConsumers[q].consumers == [ConsumerInfo(t2, q, false), ConsumerInfo(t3, q, false)]
    ensures removed == [false, true, true]
  {
    var qc := cm.queueConsumers[q];
    RemoveFirstOfThree(q, t1, t2, t3);
    cm.Remove(t1, q);
    var a := cm.Exists(t1, q);
    var b := cm.Exists(t2, q);
    var c := cm.Exists(t3, q);
    removed := [a, b, c];
  }

  /** Erasing the first of three consumers leaves the other two, in order. */
  lemma RemoveFirstOfThree(q: string, t1: string, t2: string, t3: string)
    requires t1 != t2 && t1 != t3
    ensures WithoutTag([ConsumerInfo(t1, q, false), ConsumerInfo(t2, q, false), ConsumerInfo(t3, q, false)], t1)
         == [ConsumerInfo(t2, q, false), ConsumerInfo(t3, q, false)]
    ensures !HasTag([ConsumerInfo(t2, q, false), ConsumerInfo(t3, q, false)], t1)
    ensures HasTag([ConsumerInfo(t2, q, false), ConsumerInfo(t3, q, false)], t2)
    ensures HasTag([ConsumerInfo(t2, q, false), ConsumerInfo(t3, q, false)], t3)
  {
    var left := [ConsumerInfo(t2, q, false), ConsumerInfo(t3, q, false)];
    assert left[0].tag == t2 && left[1].tag == t3;
  }

  /** The choose test of consumer_test.cc: with two consumers left and the
      sequence at 0, the choices alternate. */
  method ChooseThree(cm: ConsumerManager, q: string, t2: string, t3: string) returns (chosen: seq<string>)
    requires cm.Valid() && q in cm.queueConsumers && cm.queueConsumers[q].rrSeq == 0
    requires cm.queueConsumers[q].consumers == [ConsumerInfo(t2, q, false), ConsumerInfo(t3, q, false)]
    modifies cm.queueConsumers[q]
    ensures chosen == [t2, t3, t2]
  {
    var r1 := cm.Choose(q);
    var r2 := cm.Choose(q);
    var r3 := cm.Choose(q);
    chosen := [r1.value.tag, r2.value.tag, r3.value.tag];
  }

  /** The insert, remove and choose tests of consumer_test.cc, for any three
      distinct tags, a queue with a set and a queue without one. */
  method ConsumerTestScenario(t1: string, t2: string, t3: string, t4: string, q1: string, q2: string)
    returns (inserted: seq<bool>, removed: seq<bool>, chosen: seq<string>)
    requires t1 != t2 && t1 != t3 && t2 != t3 && t4 != t1 && t4 != t2 && t4 != t3 && q1 != q2
    ensures inserted == [true, true, true, false, false]
    ensures removed == [false, true, true]
    ensures chosen == [t2, t3, t2]
  {
    var cm := new ConsumerManager();
    cm.InitQueueConsumer(q1);
    var qc := cm.queueConsumers[q1];
    CreateThree(cm, q1, t1, t2, t3);
    assert qc.consumers[0].tag == t1 && qc.consumers[1].tag == t2 && qc.consumers[2].tag == t3;
    var a := cm.Exists(t1, q1);
    var b := cm.Exists(t2, q1);
    var c := cm.Exists(t3, q1);
    var d := cm.Exists(t3, q2);
    var e := cm.Exists(t4, q1);
    inserted := [a, b, c, d, e];
    removed := RemoveFirst(cm, q1, t1, t2, t3);
    chosen := ChooseThree(cm, q1, t2, t3);
  }
}
