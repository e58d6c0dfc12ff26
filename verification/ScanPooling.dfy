/**
 * The queue of idle consumers a scan pool keeps, and the leases that take a
 * consumer out of it and hand it back.
 */
module ScanPooling {
  import opened Sequences
  import opened Wrappers

  /** The identity of a consumer, however many references share it. */
  type Consumer = nat

  /** A reading of the monotone clock. */
  type Instant = nat

  datatype Tuning = Tuning(perTopic: nat, total: nat, ttl: nat)

  datatype Parked = Parked(topic: string, consumer: Consumer, since: Instant)

  /** What a change of the queue leaves parked, and what it throws out. */
  datatype Queue = Queue(parked: seq<Parked>, evicted: seq<Consumer>)

  function IdleFor(parked: Parked, now: Instant): nat {
    if now >= parked.since then now - parked.since else 0
  }

  predicate Expired(parked: Parked, now: Instant, ttl: nat) {
    IdleFor(parked, now) > ttl
  }

  function Consumers(parked: seq<Parked>): seq<Consumer> {
    seq(|parked|, i requires 0 <= i < |parked| => parked[i].consumer)
  }

  /** Drops entries from the front only, as long as the front one has expired. */
  function ExpireQueue(parked: seq<Parked>, now: Instant, ttl: nat): Queue {
    if parked != [] && Expired(parked[0], now, ttl) then
      var rest := ExpireQueue(parked[1..], now, ttl);
      Queue(rest.parked, [parked[0].consumer] + rest.evicted)
    else Queue(parked, [])
  }

  function OfTopic(parked: seq<Parked>, topic: string): nat {
    if parked == [] then 0
    else OfTopic(parked[..|parked| - 1], topic) + if parked[|parked| - 1].topic == topic then 1 else 0
  }

  function Newest(parked: seq<Parked>, topic: string): (index: Option<nat>)
    ensures index.Some? ==> index.value < |parked| && parked[index.value].topic == topic
    ensures forall i | 0 <= i < |parked| && parked[i].topic == topic :: index.Some? && i <= index.value
  {
    if parked == [] then None
    else if parked[|parked| - 1].topic == topic then Some(|parked| - 1)
    else Newest(parked[..|parked| - 1], topic)
  }

  function Without(parked: seq<Parked>, i: nat): seq<Parked>
    requires i < |parked|
  {
    parked[..i] + parked[i + 1..]
  }

  datatype Taken = Taken(queue: Queue, consumer: Option<Consumer>)

  /** Takes the newest entry of the topic, throwing out those found closed. */
  function TakeOpen(parked: seq<Parked>, topic: string, closed: set<Consumer>): Taken
    decreases |parked|
  {
    match Newest(parked, topic)
    case None => Taken(Queue(parked, []), None)
    case Some(i) =>
      if parked[i].consumer !in closed then
        Taken(Queue(Without(parked, i), []), Some(parked[i].consumer))
      else
        var rest := TakeOpen(Without(parked, i), topic, closed);
        Taken(Queue(rest.queue.parked, [parked[i].consumer] + rest.queue.evicted), rest.consumer)
  }

  function TakeQueue(parked: seq<Parked>, topic: string, closed: set<Consumer>, now: Instant, ttl: nat): Taken {
    var expired := ExpireQueue(parked, now, ttl);
    var taken := TakeOpen(expired.parked, topic, closed);
    Taken(Queue(taken.queue.parked, expired.evicted + taken.queue.evicted), taken.consumer)
  }

  predicate Full(parked: seq<Parked>, topic: string, tuning: Tuning) {
    |parked| >= tuning.total || OfTopic(parked, topic) >= tuning.perTopic
  }

  /** `now` is read to expire old entries, `later` to date the new one. */
  function ParkQueue(
      parked: seq<Parked>, topic: string, consumer: Consumer, now: Instant, later: Instant, tuning: Tuning): Queue
  {
    var expired := ExpireQueue(parked, now, tuning.ttl);
    if Full(expired.parked, topic, tuning) then
      Queue(expired.parked, expired.evicted + [consumer])
    else
      Queue(expired.parked + [Parked(topic, consumer, later)], expired.evicted)
  }

  /** A lease hands its consumer back: parked when reusable, thrown out when not. */
  function Return(
      parked: seq<Parked>, topic: string, consumer: Consumer, reusable: bool,
      now: Instant, later: Instant, tuning: Tuning): Queue
  {
    if reusable then ParkQueue(parked, topic, consumer, now, later, tuning) else Queue(parked, [consumer])
  }

  // ---------------------------------------------------------------- the classes

  lemma OfTopicStep(parked: seq<Parked>, topic: string, i: nat)
    requires i < |parked|
    ensures OfTopic(parked[..i + 1], topic)
         == OfTopic(parked[..i], topic) + if parked[i].topic == topic then 1 else 0
  {
    assert parked[..i + 1][..i] == parked[..i];
  }

  /** `taken` once `evicted` was thrown out before it. */
  function After(evicted: seq<Consumer>, taken: Taken): Taken {
    Taken(Queue(taken.queue.parked, evicted + taken.queue.evicted), taken.consumer)
  }

  lemma TakeOpenStep(parked: seq<Parked>, topic: string, closed: set<Consumer>, evicted: seq<Consumer>)
    ensures var goal := After(evicted, TakeOpen(parked, topic, closed));
            match Newest(parked, topic)
            case None => goal == Taken(Queue(parked, evicted), None)
            case Some(i) =>
              var consumer, rest := parked[i].consumer, Without(parked, i);
              if consumer !in closed then goal == Taken(Queue(rest, evicted), Some(consumer))
              else goal == After(evicted + [consumer], TakeOpen(rest, topic, closed))
  {
    assert evicted + [] == evicted;
    var index := Newest(parked, topic);
    if index.Some? {
      var i := index.value;
      Assoc(evicted, [parked[i].consumer], TakeOpen(Without(parked, i), topic, closed).queue.evicted);
    }
  }

  class ScanPoolInner {
    var parked: seq<Parked>
    const tuning: Tuning

    constructor (tuning: Tuning)
      ensures parked == [] && this.tuning == tuning
    {
      parked := [];
      this.tuning := tuning;
    }

    method Expire(now: Instant, evicted: seq<Consumer>) returns (all: seq<Consumer>)
      modifies this
      ensures Queue(parked, all)
           == var done := ExpireQueue(old(parked), now, tuning.ttl);
              Queue(done.parked, evicted + done.evicted)
    {
      all := evicted;
      ghost var goal := ExpireQueue(parked, now, tuning.ttl);
      while parked != [] && Expired(parked[0], now, tuning.ttl)
        invariant var left := ExpireQueue(parked, now, tuning.ttl);
                  left.parked == goal.parked && all + left.evicted == evicted + goal.evicted
        decreases |parked|
      {
        all := all + [parked[0].consumer];
        parked := parked[1..];
      }
    }

    method RemoveNewest(topic: string) returns (removed: Option<Parked>)
      modifies this
      ensures match Newest(old(parked), topic)
              case None => removed == None && parked == old(parked)
              case Some(i) => removed == Some(old(parked)[i]) && parked == Without(old(parked), i)
    {
      var index := Newest(parked, topic);
      if index.None? {
        return None;
      }
      removed := Some(parked[index.value]);
      parked := Without(parked, index.value);
    }

    /** `closed` holds the consumers whose `is_closed` answers true. */
    method Take(topic: string, closed: set<Consumer>, now: Instant, evicted: seq<Consumer>)
      returns (taken: Option<Consumer>, all: seq<Consumer>)
      modifies this
      ensures Taken(Queue(parked, all), taken)
           == var done := TakeQueue(old(parked), topic, closed, now, tuning.ttl);
              Taken(Queue(done.queue.parked, evicted + done.queue.evicted), done.consumer)
    {
      all := Expire(now, evicted);
      ghost var expired := ExpireQueue(old(parked), now, tuning.ttl);
      ghost var chosen := TakeOpen(parked, topic, closed);
      Assoc(evicted, expired.evicted, chosen.queue.evicted);
      ghost var goal := After(all, chosen);
      while true
        invariant After(all, TakeOpen(parked, topic, closed)) == goal
        decreases |parked|
      {
        TakeOpenStep(parked, topic, closed, all);
        var candidate := RemoveNewest(topic);
        if candidate.None? {
          return None, all;
        }
        if candidate.value.consumer !in closed {
          return Some(candidate.value.consumer), all;
        }
        all := all + [candidate.value.consumer];
      }
    }

    method Park(topic: string, consumer: Consumer, now: Instant, later: Instant, evicted: seq<Consumer>)
      returns (all: seq<Consumer>)
      requires now <= later
      modifies this
      ensures Queue(parked, all)
           == var done := ParkQueue(old(parked), topic, consumer, now, later, tuning);
              Queue(done.parked, evicted + done.evicted)
    {
      all := Expire(now, evicted);
      ghost var expired := ExpireQueue(old(parked), now, tuning.ttl);
      Assoc(evicted, expired.evicted, [consumer]);
      var sameTopic := 0;
      for i := 0 to |parked|
        invariant parked == expired.parked && sameTopic == OfTopic(parked[..i], topic)
      {
        OfTopicStep(parked, topic, i);
        if parked[i].topic == topic {
          sameTopic := sameTopic + 1;
        }
      }
      assert parked[..|parked|] == parked;
      if |parked| >= tuning.total || sameTopic >= tuning.perTopic {
        all := all + [consumer];
        return;
      }
      parked := parked + [Parked(topic, consumer, later)];
    }
  }

  class ScanPool {
    const inner: ScanPoolInner
    /** Every consumer given to `retire`, which closes it. */
    var retired: seq<Consumer>

    constructor (tuning: Tuning)
      ensures fresh(inner) && inner.tuning == tuning && inner.parked == [] && retired == []
    {
      inner := new ScanPoolInner(tuning);
      retired := [];
    }

    /**
     * `built` is what building a consumer yields, `placed` whether assigning
     * its windows succeeds.
     */
    method Acquire(topic: string, closed: set<Consumer>, now: Instant, built: Option<Consumer>, placed: bool)
      returns (lease: Option<ScanLease>)
      modifies this, inner
      ensures var done := TakeQueue(old(inner.parked), topic, closed, now, inner.tuning.ttl);
              var consumer := if done.consumer.Some? then done.consumer else built;
              && inner.parked == done.queue.parked
              && (consumer.None? ==> lease.None? && retired == old(retired) + done.queue.evicted)
              && (consumer.Some? && !placed ==>
                    lease.None? && retired == old(retired) + done.queue.evicted + [consumer.value])
              && (consumer.Some? && placed ==>
                    && lease.Some? && retired == old(retired) + done.queue.evicted
                    && fresh(lease.value) && lease.value.pool == this && lease.value.topic == topic
                    && lease.value.consumer == consumer.value
                    && lease.value.reusable && !lease.value.released)
    {
      var taken, evicted := inner.Take(topic, closed, now, []);
      retired := retired + evicted;
      var consumer := if taken.Some? then taken else built;
      if consumer.None? {
        return None;
      }
      if !placed {
        retired := retired + [consumer.value];
        return None;
      }
      var made := new ScanLease(this, topic, consumer.value);
      lease := Some(made);
    }

    method Release(topic: string, consumer: Consumer, reusable: bool, now: Instant, later: Instant)
      requires now <= later
      modifies this, inner
      ensures var done := Return(old(inner.parked), topic, consumer, reusable, now, later, inner.tuning);
              inner.parked == done.parked && retired == old(retired) + done.evicted
    {
      if !reusable {
        retired := retired + [consumer];
        return;
      }
      var evicted := inner.Park(topic, consumer, now, later, []);
      retired := retired + evicted;
    }

    method Sweep(now: Instant)
      modifies this, inner
      ensures var done := ExpireQueue(old(inner.parked), now, inner.tuning.ttl);
              inner.parked == done.parked && retired == old(retired) + done.evicted
    {
      var evicted := inner.Expire(now, []);
      retired := retired + evicted;
    }
  }

  class ScanLease {
    const pool: ScanPool
    const topic: string
    const consumer: Consumer
    var reusable: bool
    var released: bool

    constructor (pool: ScanPool, topic: string, consumer: Consumer)
      ensures this.pool == pool && this.topic == topic && this.consumer == consumer
      ensures reusable && !released
    {
      this.pool := pool;
      this.topic := topic;
      this.consumer := consumer;
      reusable := true;
      released := false;
    }

    method Poison(failed: bool)
      modifies this`reusable
      ensures reusable == (old(reusable) && !failed)
    {
      if failed {
        reusable := false;
      }
    }

    /** Hands the consumer back on the first call and does nothing on any other. */
    method Release(now: Instant, later: Instant)
      requires now <= later
      modifies this`released, pool, pool.inner
      ensures released
      ensures old(released) ==> pool.inner.parked == old(pool.inner.parked) && pool.retired == old(pool.retired)
      ensures !old(released) ==>
                var done := Return(old(pool.inner.parked), topic, consumer, reusable, now, later, pool.inner.tuning);
                pool.inner.parked == done.parked && pool.retired == old(pool.retired) + done.evicted
    {
      var before := released;
      released := true;
      if before {
        return;
      }
      pool.Release(topic, consumer, reusable, now, later);
    }

    /** Closing a lease and then dropping it, as every caller that closes does. */
    method CloseThenDrop(closing: Instant, closed: Instant, dropping: Instant, dropped: Instant)
      requires closing <= closed <= dropping <= dropped
      requires !released
      modifies this`released, pool, pool.inner
      ensures released
      ensures var done := Return(old(pool.inner.parked), topic, consumer, reusable, closing, closed, pool.inner.tuning);
              pool.inner.parked == done.parked && pool.retired == old(pool.retired) + done.evicted
    {
      Release(closing, closed);
      Release(dropping, dropped);
    }
  }

  // ------------------------------------------------- what the queue operations do

  ghost predicate Sorted(parked: seq<Parked>) {
    forall i, j | 0 <= i < j < |parked| :: parked[i].since <= parked[j].since
  }

  /** The entries a predicate keeps, in order. */
  function Keep(parked: seq<Parked>, now: Instant, ttl: nat): seq<Parked> {
    if parked == [] then []
    else (if now > parked[0].since + ttl then [] else [parked[0]]) + Keep(parked[1..], now, ttl)
  }

  function Drop(parked: seq<Parked>, now: Instant, ttl: nat): seq<Consumer> {
    if parked == [] then []
    else (if now > parked[0].since + ttl then [parked[0].consumer] else []) + Drop(parked[1..], now, ttl)
  }

  lemma {:induction false} FreshKeepsAll(parked: seq<Parked>, now: Instant, ttl: nat)
    requires forall p | p in parked :: now <= p.since + ttl
    ensures Keep(parked, now, ttl) == parked && Drop(parked, now, ttl) == []
  {
    if parked != [] {
      assert parked[0] in parked;
      FreshKeepsAll(parked[1..], now, ttl);
    }
  }

  /** In a queue sorted by park time, expiring from the front expires exactly what is due. */
  lemma {:induction false} ExpireIsExact(parked: seq<Parked>, now: Instant, ttl: nat)
    requires Sorted(parked)
    ensures ExpireQueue(parked, now, ttl) == Queue(Keep(parked, now, ttl), Drop(parked, now, ttl))
  {
    if parked != [] && Expired(parked[0], now, ttl) {
      ExpireIsExact(parked[1..], now, ttl);
    } else {
      forall p | p in parked ensures now <= p.since + ttl {
        var i :| 0 <= i < |parked| && parked[i] == p;
        assert i > 0 ==> parked[0].since <= parked[i].since;
      }
      FreshKeepsAll(parked, now, ttl);
    }
  }

  /** Expiring only shortens the queue from its front, and evicts what it cuts. */
  lemma {:induction false} ExpireCutsFront(parked: seq<Parked>, now: Instant, ttl: nat)
    ensures var done := ExpireQueue(parked, now, ttl);
            && |done.parked| <= |parked| && |done.evicted| == |parked| - |done.parked|
            && done.parked == parked[|done.evicted|..]
            && done.evicted == Consumers(parked[..|done.evicted|])
            && (forall i | 0 <= i < |done.evicted| :: now > parked[i].since + ttl)
            && (done.parked != [] ==> now <= done.parked[0].since + ttl)
  {
    if parked != [] && Expired(parked[0], now, ttl) {
      ExpireCutsFront(parked[1..], now, ttl);
      var cut := |ExpireQueue(parked[1..], now, ttl).evicted|;
      assert parked[..1 + cut] == [parked[0]] + parked[1..][..cut];
    }
  }

  ghost predicate Candidate(parked: seq<Parked>, i: int, topic: string, closed: set<Consumer>, now: Instant, ttl: nat) {
    && 0 <= i < |parked| && parked[i].topic == topic
    && now <= parked[i].since + ttl && parked[i].consumer !in closed
  }

  /** Every consumer of `before` goes to exactly one of what is kept, evicted and taken. */
  ghost predicate Accounts(before: seq<Parked>, after: Taken) {
    multiset(Consumers(before))
    == multiset(Consumers(after.queue.parked)) + multiset(after.queue.evicted)
       + (if after.consumer.Some? then multiset{after.consumer.value} else multiset{})
  }

  lemma ConsumersWithout(parked: seq<Parked>, i: nat)
    requires i < |parked|
    ensures multiset(Consumers(parked)) == multiset(Consumers(Without(parked, i))) + multiset{parked[i].consumer}
  {
    var left, right := parked[..i], parked[i + 1..];
    assert Consumers(parked) == Consumers(left) + [parked[i].consumer] + Consumers(right);
    assert Consumers(Without(parked, i)) == Consumers(left) + Consumers(right);
  }

  lemma {:induction false} TakeOpenCounts(parked: seq<Parked>, topic: string, closed: set<Consumer>)
    ensures var taken := TakeOpen(parked, topic, closed);
            Accounts(parked, taken) && forall c | c in taken.queue.evicted :: c in closed
    decreases |parked|
  {
    var index := Newest(parked, topic);
    if index.Some? {
      ConsumersWithout(parked, index.value);
      if parked[index.value].consumer in closed {
        TakeOpenCounts(Without(parked, index.value), topic, closed);
      }
    }
  }

  lemma WithoutKeepsOrder(parked: seq<Parked>, i: nat)
    requires Sorted(parked) && i < |parked|
    ensures Sorted(Without(parked, i)) && forall p | p in Without(parked, i) :: p in parked
  {
  }

  lemma {:induction false} TakeOpenKeepsOrder(parked: seq<Parked>, topic: string, closed: set<Consumer>)
    requires Sorted(parked)
    ensures var left := TakeOpen(parked, topic, closed).queue.parked;
            Sorted(left) && forall p | p in left :: p in parked
    decreases |parked|
  {
    var index := Newest(parked, topic);
    if index.Some? {
      WithoutKeepsOrder(parked, index.value);
      if parked[index.value].consumer in closed {
        TakeOpenKeepsOrder(Without(parked, index.value), topic, closed);
      }
    }
  }

  /** What taking leaves is a part of the queue in its old order, and every consumer is accounted for. */
  lemma TakeOpenAccounts(parked: seq<Parked>, topic: string, closed: set<Consumer>)
    requires Sorted(parked)
    ensures var taken := TakeOpen(parked, topic, closed);
            && Accounts(parked, taken)
            && Sorted(taken.queue.parked)
            && (forall p | p in taken.queue.parked :: p in parked)
            && (forall c | c in taken.queue.evicted :: c in closed)
  {
    TakeOpenCounts(parked, topic, closed);
    TakeOpenKeepsOrder(parked, topic, closed);
  }

  /** The entry taken is the last of its topic that is still open. */
  lemma {:induction false} TakeOpenTakesNewest(parked: seq<Parked>, topic: string, closed: set<Consumer>)
    ensures var taken := TakeOpen(parked, topic, closed);
            match taken.consumer
            case None => forall i | 0 <= i < |parked| && parked[i].topic == topic :: parked[i].consumer in closed
            case Some(c) =>
              exists i ::
                && 0 <= i < |parked| && parked[i].topic == topic && parked[i].consumer == c && c !in closed
                && forall j | i < j < |parked| && parked[j].topic == topic :: parked[j].consumer in closed
    decreases |parked|
  {
    var index := Newest(parked, topic);
    if index.Some? && parked[index.value].consumer in closed {
      var n := index.value;
      var rest := Without(parked, n);
      TakeOpenTakesNewest(rest, topic, closed);
      var taken := TakeOpen(rest, topic, closed);
      assert forall i | 0 <= i < |rest| :: rest[i] == parked[if i < n then i else i + 1];
      if taken.consumer.None? {
        forall i | 0 <= i < |parked| && parked[i].topic == topic ensures parked[i].consumer in closed {
          if i < n { assert rest[i] == parked[i]; }
        }
      } else {
        var i :| 0 <= i < |rest| && rest[i].topic == topic && rest[i].consumer == taken.consumer.value
                 && forall j | i < j < |rest| && rest[j].topic == topic :: rest[j].consumer in closed;
        var at := if i < n then i else i + 1;
        forall j | at < j < |parked| && parked[j].topic == topic ensures parked[j].consumer in closed {
          if j < n { assert rest[j] == parked[j]; }
        }
      }
    }
  }

  /** The first `n` entries have expired and no other has. */
  ghost predicate ExpiredUpTo(parked: seq<Parked>, n: nat, now: Instant, ttl: nat) {
    n <= |parked| && forall i | 0 <= i < |parked| :: now > parked[i].since + ttl <==> i < n
  }

  lemma ExpireCutsExpired(parked: seq<Parked>, now: Instant, ttl: nat) returns (n: nat)
    requires Sorted(parked)
    ensures ExpiredUpTo(parked, n, now, ttl)
    ensures ExpireQueue(parked, now, ttl) == Queue(parked[n..], Consumers(parked[..n]))
  {
    var done := ExpireQueue(parked, now, ttl);
    ExpireCutsFront(parked, now, ttl);
    n := |done.evicted|;
    if n < |parked| {
      assert done.parked[0] == parked[n];
    }
  }

  lemma ConsumersSplit(parked: seq<Parked>, n: nat)
    requires n <= |parked|
    ensures Consumers(parked) == Consumers(parked[..n]) + Consumers(parked[n..])
  {
  }

  /** Taking keeps nothing expired, evicts nothing else that is open, and loses no consumer. */
  lemma TakeAccounts(parked: seq<Parked>, topic: string, closed: set<Consumer>, now: Instant, ttl: nat)
    requires Sorted(parked)
    ensures var taken := TakeQueue(parked, topic, closed, now, ttl);
            && Accounts(parked, taken) && Sorted(taken.queue.parked)
            && (forall p | p in taken.queue.parked :: p in parked && now <= p.since + ttl)
            && (forall c | c in taken.queue.evicted ::
                  c in closed || exists p :: p in parked && p.consumer == c && now > p.since + ttl)
  {
    var n := ExpireCutsExpired(parked, now, ttl);
    var front, back := parked[..n], parked[n..];
    ConsumersSplit(parked, n);
    TakeOpenAccounts(back, topic, closed);
    FrontExpired(parked, n, now, ttl);
  }

  lemma FrontExpired(parked: seq<Parked>, n: nat, now: Instant, ttl: nat)
    requires ExpiredUpTo(parked, n, now, ttl)
    ensures forall c | c in Consumers(parked[..n]) :: exists p :: p in parked && p.consumer == c && now > p.since + ttl
    ensures forall p | p in parked[n..] :: p in parked && now <= p.since + ttl
  {
    forall c | c in Consumers(parked[..n])
      ensures exists p :: p in parked && p.consumer == c && now > p.since + ttl
    {
      var i :| 0 <= i < n && Consumers(parked[..n])[i] == c;
      assert parked[i] in parked && parked[i].consumer == c;
    }
  }

  lemma TakeNewestOfBack(parked: seq<Parked>, n: nat, topic: string, closed: set<Consumer>, now: Instant, ttl: nat)
    requires ExpiredUpTo(parked, n, now, ttl)
    ensures match TakeOpen(parked[n..], topic, closed).consumer
            case None => forall i :: !Candidate(parked, i, topic, closed, now, ttl)
            case Some(c) =>
              exists i :: Candidate(parked, i, topic, closed, now, ttl) && parked[i].consumer == c
                && forall j | i < j :: !Candidate(parked, j, topic, closed, now, ttl)
  {
    var back := parked[n..];
    var taken := TakeOpen(back, topic, closed);
    TakeOpenTakesNewest(back, topic, closed);
    if taken.consumer.None? {
      forall i ensures !Candidate(parked, i, topic, closed, now, ttl) {
        if n <= i < |parked| { assert back[i - n] == parked[i]; }
      }
    } else {
      var i :| 0 <= i < |back| && back[i].topic == topic && back[i].consumer == taken.consumer.value
               && taken.consumer.value !in closed
               && forall j | i < j < |back| && back[j].topic == topic :: back[j].consumer in closed;
      assert Candidate(parked, n + i, topic, closed, now, ttl);
      forall j | n + i < j ensures !Candidate(parked, j, topic, closed, now, ttl) {
        if j < |parked| { assert back[j - n] == parked[j]; }
      }
    }
  }

  /**
   * Taking returns the most recently parked consumer of the topic that is open
   * and not expired, or nothing when there is none.
   */
  lemma TakeIsExact(parked: seq<Parked>, topic: string, closed: set<Consumer>, now: Instant, ttl: nat)
    requires Sorted(parked)
    ensures match TakeQueue(parked, topic, closed, now, ttl).consumer
            case None => forall i :: !Candidate(parked, i, topic, closed, now, ttl)
            case Some(c) =>
              exists i :: Candidate(parked, i, topic, closed, now, ttl) && parked[i].consumer == c
                && forall j | i < j :: !Candidate(parked, j, topic, closed, now, ttl)
  {
    var n := ExpireCutsExpired(parked, now, ttl);
    TakeNewestOfBack(parked, n, topic, closed, now, ttl);
  }

  /** The entries of a topic that have not expired. */
  function Unexpired(parked: seq<Parked>, topic: string, now: Instant, ttl: nat): nat {
    OfTopic(Keep(parked, now, ttl), topic)
  }

  /**
   * Handing back parks the consumer last, dated when it was handed back, exactly when it is
   * reusable and what has not expired leaves room for it; otherwise it is thrown out. Nothing
   * else leaves the queue but what has expired, and a consumer thrown out evicts nothing else.
   */
  lemma ReturnIsExact(
      parked: seq<Parked>, topic: string, consumer: Consumer, reusable: bool,
      now: Instant, later: Instant, tuning: Tuning)
    requires Sorted(parked)
    ensures var kept := Keep(parked, now, tuning.ttl);
            var done := Return(parked, topic, consumer, reusable, now, later, tuning);
            if !reusable then done == Queue(parked, [consumer])
            else if |kept| < tuning.total && Unexpired(parked, topic, now, tuning.ttl) < tuning.perTopic then
              done == Queue(kept + [Parked(topic, consumer, later)], Drop(parked, now, tuning.ttl))
            else done == Queue(kept, Drop(parked, now, tuning.ttl) + [consumer])
  {
    ExpireIsExact(parked, now, tuning.ttl);
  }
}
