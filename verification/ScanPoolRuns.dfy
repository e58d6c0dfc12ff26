/**
 * Every run of a scan pool: acquiring, failing, closing and dropping leases,
 * the periodic sweep, and time passing, in any order.
 */
module ScanPoolRuns {
  import opened Wrappers
  import opened ScanPooling

  type LeaseId = nat

  datatype Lease = Lease(consumer: Consumer, topic: string, reusable: bool, released: bool)

  datatype State = State(
    parked: seq<Parked>,
    leases: map<LeaseId, Lease>,
    retired: multiset<Consumer>,
    /** Every consumer ever built. */
    made: set<Consumer>,
    /** Every consumer an operation failed on while a lease or an acquire still held it. */
    failed: set<Consumer>,
    /** How often each lease ever granted handed its consumer back. */
    handed: map<LeaseId, nat>,
    now: Instant,
    swept: Instant)

  datatype Step =
    | Acquire(topic: string, id: LeaseId, closed: set<Consumer>, built: Option<Consumer>, placed: bool)
    | Fail(id: LeaseId)
    | Close(id: LeaseId, later: Instant)
    | DropLease(id: LeaseId, later: Instant)
    | Sweep
    | Tick(elapsed: nat)

  const START: State := State([], map[], multiset{}, {}, {}, map[], 0, 0)

  ghost predicate Enabled(s: State, step: Step) {
    match step
    case Acquire(_, id, _, built, _) => id !in s.handed && (built.Some? ==> built.value !in s.made)
    case Fail(id) => id in s.leases
    case Close(id, later) => id in s.leases && s.now <= later
    case DropLease(id, later) => id in s.leases && s.now <= later
    case Sweep => true
    case Tick(_) => true
  }

  /** What an acquire takes from the pool or, finding nothing there, builds. */
  function Grant(taken: Taken, built: Option<Consumer>): Option<Consumer> {
    if taken.consumer.Some? then taken.consumer else built
  }

  ghost function AfterAcquire(s: State, step: Step, tuning: Tuning): State
    requires step.Acquire?
  {
    var taken := TakeQueue(s.parked, step.topic, step.closed, s.now, tuning.ttl);
    var left := s.(parked := taken.queue.parked, retired := s.retired + multiset(taken.queue.evicted));
    match Grant(taken, step.built)
    case None => left
    case Some(c) =>
      if step.placed then
        left.(made := s.made + {c}, handed := s.handed[step.id := 0],
              leases := s.leases[step.id := Lease(c, step.topic, true, false)])
      else
        left.(made := s.made + {c}, failed := s.failed + {c}, retired := left.retired + multiset{c})
  }

  ghost function AfterReturn(s: State, id: LeaseId, later: Instant, tuning: Tuning): State
    requires id in s.leases
  {
    var lease := s.leases[id];
    if lease.released then s.(now := later)
    else
      var queue := Return(s.parked, lease.topic, lease.consumer, lease.reusable, s.now, later, tuning);
      s.(parked := queue.parked, retired := s.retired + multiset(queue.evicted), now := later,
         leases := s.leases[id := lease.(released := true)],
         handed := s.handed[id := (if id in s.handed then s.handed[id] else 0) + 1])
  }

  ghost function After(s: State, step: Step, tuning: Tuning): State
    requires Enabled(s, step)
  {
    match step
    case Acquire(_, _, _, _, _) => AfterAcquire(s, step, tuning)
    case Fail(id) =>
      var lease := s.leases[id];
      s.(leases := s.leases[id := lease.(reusable := false)],
         failed := if lease.released then s.failed else s.failed + {lease.consumer})
    case Close(id, later) => AfterReturn(s, id, later, tuning)
    case DropLease(id, later) =>
      var returned := AfterReturn(s, id, later, tuning);
      returned.(leases := returned.leases - {id})
    case Sweep =>
      var queue := ExpireQueue(s.parked, s.now, tuning.ttl);
      s.(parked := queue.parked, retired := s.retired + multiset(queue.evicted), swept := s.now)
    case Tick(elapsed) => s.(now := s.now + elapsed)
  }

  // ------------------------------------------------------------- the invariant

  ghost function Holders(leases: map<LeaseId, Lease>, c: Consumer): set<LeaseId> {
    set l | l in leases && !leases[l].released && leases[l].consumer == c
  }

  /** In how many places the pool, its leases and the retired consumers hold `c`. */
  ghost function Places(s: State, c: Consumer): nat {
    multiset(Consumers(s.parked))[c] + |Holders(s.leases, c)| + s.retired[c]
  }

  ghost predicate OnePlaceEach(s: State) {
    forall c :: Places(s, c) == if c in s.made then 1 else 0
  }

  /** The queue: sorted by park time, within both caps, nothing idle past the last sweep. */
  ghost predicate Tidy(parked: seq<Parked>, tuning: Tuning, now: Instant, swept: Instant) {
    && Sorted(parked)
    && (forall p | p in parked :: p.since <= now && swept <= p.since + tuning.ttl)
    && |parked| <= tuning.total
    && (forall topic :: OfTopic(parked, topic) <= tuning.perTopic)
  }

  /** No failed consumer is parked, and a live lease is reusable exactly if its consumer never failed. */
  ghost predicate FailedOut(parked: seq<Parked>, leases: map<LeaseId, Lease>, failed: set<Consumer>) {
    && (forall c | c in failed :: c !in Consumers(parked))
    && (forall l | l in leases && !leases[l].released :: leases[l].reusable <==> leases[l].consumer !in failed)
  }

  ghost predicate FailedStayOut(s: State) {
    FailedOut(s.parked, s.leases, s.failed)
  }

  ghost predicate HandedOnce(s: State) {
    && s.leases.Keys <= s.handed.Keys
    && (forall l | l in s.handed :: s.handed[l] == if l in s.leases && !s.leases[l].released then 0 else 1)
  }

  ghost predicate Inv(s: State, tuning: Tuning) {
    && OnePlaceEach(s)
    && Tidy(s.parked, tuning, s.now, s.swept) && s.swept <= s.now
    && s.failed <= s.made && FailedStayOut(s)
    && HandedOnce(s)
  }

  // ------------------------------------------------------- the queue operations

  lemma {:induction false} OfTopicJoins(a: seq<Parked>, b: seq<Parked>, topic: string)
    ensures OfTopic(a + b, topic) == OfTopic(a, topic) + OfTopic(b, topic)
  {
    if b == [] {
      assert a + b == a;
    } else {
      assert (a + b)[..|a + b| - 1] == a + b[..|b| - 1];
      OfTopicJoins(a, b[..|b| - 1], topic);
    }
  }

  lemma BackTidy(parked: seq<Parked>, n: nat, tuning: Tuning, now: Instant, swept: Instant)
    requires Tidy(parked, tuning, now, swept) && n <= |parked|
    ensures Tidy(parked[n..], tuning, now, swept)
  {
    forall topic ensures OfTopic(parked[n..], topic) <= tuning.perTopic {
      OfTopicParts(parked, n, topic);
    }
    var back := parked[n..];
    assert forall i | 0 <= i < |back| :: back[i] == parked[n + i];
  }

  lemma OfTopicParts(parked: seq<Parked>, n: nat, topic: string)
    requires n <= |parked|
    ensures OfTopic(parked, topic) == OfTopic(parked[..n], topic) + OfTopic(parked[n..], topic)
  {
    OfTopicJoins(parked[..n], parked[n..], topic);
    assert parked[..n] + parked[n..] == parked;
  }

  lemma WithoutTidy(parked: seq<Parked>, i: nat, tuning: Tuning, now: Instant, swept: Instant)
    requires Tidy(parked, tuning, now, swept) && i < |parked|
    ensures Tidy(Without(parked, i), tuning, now, swept)
  {
    forall topic ensures OfTopic(Without(parked, i), topic) <= tuning.perTopic {
      OfTopicParts(parked, i, topic);
      OfTopicParts(parked[i..], 1, topic);
      OfTopicJoins(parked[..i], parked[i + 1..], topic);
      assert parked[i..][1..] == parked[i + 1..];
    }
  }

  lemma {:induction false} TakeOpenTidy(
      parked: seq<Parked>, topic: string, closed: set<Consumer>, tuning: Tuning, now: Instant, swept: Instant)
    requires Tidy(parked, tuning, now, swept)
    ensures Tidy(TakeOpen(parked, topic, closed).queue.parked, tuning, now, swept)
    decreases |parked|
  {
    var index := Newest(parked, topic);
    if index.Some? {
      WithoutTidy(parked, index.value, tuning, now, swept);
      if parked[index.value].consumer in closed {
        TakeOpenTidy(Without(parked, index.value), topic, closed, tuning, now, swept);
      }
    }
  }

  lemma ExpireTidy(parked: seq<Parked>, tuning: Tuning, now: Instant, swept: Instant)
    requires Tidy(parked, tuning, now, swept)
    ensures var queue := ExpireQueue(parked, now, tuning.ttl);
            && Tidy(queue.parked, tuning, now, swept) && Tidy(queue.parked, tuning, now, now)
            && multiset(Consumers(parked)) == multiset(Consumers(queue.parked)) + multiset(queue.evicted)
  {
    var n := ExpireCutsExpired(parked, now, tuning.ttl);
    BackTidy(parked, n, tuning, now, swept);
    ConsumersSplit(parked, n);
    FrontExpired(parked, n, now, tuning.ttl);
    assert forall p | p in parked[n..] :: now <= p.since + tuning.ttl;
  }

  lemma TakeTidy(
      parked: seq<Parked>, topic: string, closed: set<Consumer>, tuning: Tuning, now: Instant, swept: Instant)
    requires Tidy(parked, tuning, now, swept)
    ensures var taken := TakeQueue(parked, topic, closed, now, tuning.ttl);
            Tidy(taken.queue.parked, tuning, now, swept) && Accounts(parked, taken)
  {
    ExpireTidy(parked, tuning, now, swept);
    TakeOpenTidy(ExpireQueue(parked, now, tuning.ttl).parked, topic, closed, tuning, now, swept);
    TakeAccounts(parked, topic, closed, now, tuning.ttl);
  }

  lemma AppendTidy(parked: seq<Parked>, p: Parked, tuning: Tuning, now: Instant, later: Instant, swept: Instant)
    requires Tidy(parked, tuning, now, swept) && swept <= now <= later
    requires !Full(parked, p.topic, tuning) && p.since == later
    ensures Tidy(parked + [p], tuning, later, swept)
    ensures multiset(Consumers(parked + [p])) == multiset(Consumers(parked)) + multiset{p.consumer}
  {
    forall topic ensures OfTopic(parked + [p], topic) <= tuning.perTopic {
      OfTopicJoins(parked, [p], topic);
    }
    assert Consumers(parked + [p]) == Consumers(parked) + [p.consumer];
  }

  lemma ReturnTidy(
      parked: seq<Parked>, topic: string, consumer: Consumer, reusable: bool,
      tuning: Tuning, now: Instant, later: Instant, swept: Instant)
    requires Tidy(parked, tuning, now, swept) && swept <= now <= later
    ensures var queue := Return(parked, topic, consumer, reusable, now, later, tuning);
            && Tidy(queue.parked, tuning, later, swept)
            && multiset(Consumers(parked)) + multiset{consumer}
               == multiset(Consumers(queue.parked)) + multiset(queue.evicted)
            && (!reusable ==> queue.parked == parked)
  {
    if reusable {
      var expired := ExpireQueue(parked, now, tuning.ttl);
      ExpireTidy(parked, tuning, now, swept);
      if !Full(expired.parked, topic, tuning) {
        AppendTidy(expired.parked, Parked(topic, consumer, later), tuning, now, later, swept);
      }
    }
  }

  // ----------------------------------------------------------- every step keeps it

  lemma HeldInOnePlace(s: State, c: Consumer)
    requires OnePlaceEach(s)
    ensures c in Consumers(s.parked) ==> c in s.made && Holders(s.leases, c) == {} && c !in s.retired
    ensures c in s.retired ==> c in s.made && Holders(s.leases, c) == {}
    ensures forall l, k | l in Holders(s.leases, c) && k in Holders(s.leases, c) :: l == k
    ensures Holders(s.leases, c) != {} ==> c in s.made
  {
    assert Places(s, c) == if c in s.made then 1 else 0;
    assert c in Consumers(s.parked) ==> multiset(Consumers(s.parked))[c] > 0;
    forall l, k | l in Holders(s.leases, c) && k in Holders(s.leases, c) ensures l == k {
      if l != k {
        assert {l, k} <= Holders(s.leases, c);
        SmallerSubset({l, k}, Holders(s.leases, c));
      }
    }
  }

  lemma SmallerSubset<T>(a: set<T>, b: set<T>)
    requires a <= b
    ensures |a| <= |b|
  {
    assert |b| == |a| + |b - a| by {
      assert b == a + (b - a);
    }
  }

  lemma LeaseAdded(leases: map<LeaseId, Lease>, id: LeaseId, lease: Lease, c: Consumer)
    requires id !in leases && !lease.released
    ensures |Holders(leases[id := lease], c)|
         == |Holders(leases, c)| + if c == lease.consumer then 1 else 0
  {
    var now := Holders(leases[id := lease], c);
    if c == lease.consumer {
      assert now == Holders(leases, c) + {id};
    } else {
      assert now == Holders(leases, c);
    }
  }

  lemma LeaseReleased(leases: map<LeaseId, Lease>, id: LeaseId, c: Consumer)
    requires id in leases && !leases[id].released
    ensures |Holders(leases[id := leases[id].(released := true)], c)|
         == |Holders(leases, c)| - if c == leases[id].consumer then 1 else 0
  {
    var after := Holders(leases[id := leases[id].(released := true)], c);
    if c == leases[id].consumer {
      assert Holders(leases, c) == after + {id};
    } else {
      assert after == Holders(leases, c);
    }
  }

  /** What an acquire takes out of the queue, and the count of what stays. */
  lemma TakenCounts(s: State, step: Step, tuning: Tuning, c: Consumer)
    requires Inv(s, tuning) && step.Acquire? && Enabled(s, step)
    ensures var taken := TakeQueue(s.parked, step.topic, step.closed, s.now, tuning.ttl);
            multiset(Consumers(s.parked))[c]
            == multiset(Consumers(taken.queue.parked))[c] + multiset(taken.queue.evicted)[c]
               + if taken.consumer == Some(c) then 1 else 0
  {
    TakeTidy(s.parked, step.topic, step.closed, tuning, s.now, s.swept);
  }

  /** Where one consumer is once an acquire has taken it, built it or passed it by. */
  lemma AcquireKeepsPlace(s: State, step: Step, tuning: Tuning, c: Consumer)
    requires Inv(s, tuning) && step.Acquire? && Enabled(s, step)
    ensures var s' := AfterAcquire(s, step, tuning);
            Places(s', c) == if c in s'.made then 1 else 0
  {
    var granted := Grant(TakeQueue(s.parked, step.topic, step.closed, s.now, tuning.ttl), step.built);
    assert Places(s, c) == if c in s.made then 1 else 0;
    GrantedMade(s, step, tuning);
    TakenCounts(s, step, tuning, c);
    if granted.Some? && step.placed {
      LeaseAdded(s.leases, step.id, Lease(granted.value, step.topic, true, false), c);
    }
  }

  lemma AcquireKeepsPlaces(s: State, step: Step, tuning: Tuning)
    requires Inv(s, tuning) && step.Acquire? && Enabled(s, step)
    ensures OnePlaceEach(AfterAcquire(s, step, tuning))
  {
    var s' := AfterAcquire(s, step, tuning);
    forall c ensures Places(s', c) == if c in s'.made then 1 else 0 {
      AcquireKeepsPlace(s, step, tuning, c);
    }
  }

  /** A consumer granted either comes from the queue or was never made before. */
  lemma GrantedMade(s: State, step: Step, tuning: Tuning)
    requires Inv(s, tuning) && step.Acquire? && Enabled(s, step)
    ensures var taken := TakeQueue(s.parked, step.topic, step.closed, s.now, tuning.ttl);
            var granted := Grant(taken, step.built);
            granted.Some? ==>
              && granted.value !in s.failed
              && (taken.consumer.Some? <==> granted.value in s.made)
              && (taken.consumer.Some? ==> granted.value in Consumers(s.parked))
  {
    var taken := TakeQueue(s.parked, step.topic, step.closed, s.now, tuning.ttl);
    TakeTidy(s.parked, step.topic, step.closed, tuning, s.now, s.swept);
    if taken.consumer.Some? {
      var c := taken.consumer.value;
      assert multiset(Consumers(s.parked))[c] > 0;
      HeldInOnePlace(s, c);
    }
  }

  lemma QueueShrinks(before: seq<Parked>, after: seq<Parked>, rest: multiset<Consumer>)
    requires multiset(Consumers(before)) == multiset(Consumers(after)) + rest
    ensures forall c | c in Consumers(after) :: c in Consumers(before)
  {
    forall c | c in Consumers(after) ensures c in Consumers(before) {
      assert c in multiset(Consumers(after));
      assert c in multiset(Consumers(before));
    }
  }

  lemma TakeKeepsFailedOut(s: State, step: Step, tuning: Tuning)
    requires Inv(s, tuning) && step.Acquire?
    ensures var taken := TakeQueue(s.parked, step.topic, step.closed, s.now, tuning.ttl);
            FailedOut(taken.queue.parked, s.leases, s.failed)
  {
    var taken := TakeQueue(s.parked, step.topic, step.closed, s.now, tuning.ttl);
    TakeTidy(s.parked, step.topic, step.closed, tuning, s.now, s.swept);
    QueueShrinks(s.parked, taken.queue.parked, multiset(taken.queue.evicted)
      + if taken.consumer.Some? then multiset{taken.consumer.value} else multiset{});
  }

  lemma GrantKeepsFailedOut(
      parked: seq<Parked>, leases: map<LeaseId, Lease>, failed: set<Consumer>, id: LeaseId, lease: Lease)
    requires FailedOut(parked, leases, failed)
    requires lease.reusable && lease.consumer !in failed
    ensures FailedOut(parked, leases[id := lease], failed)
  {
  }

  lemma RefusalKeepsFailedOut(parked: seq<Parked>, leases: map<LeaseId, Lease>, failed: set<Consumer>, c: Consumer)
    requires FailedOut(parked, leases, failed) && c !in Consumers(parked)
    requires forall l | l in leases && !leases[l].released :: leases[l].consumer != c
    ensures FailedOut(parked, leases, failed + {c})
  {
  }

  lemma AcquireKeepsFailedOut(s: State, step: Step, tuning: Tuning)
    requires Inv(s, tuning) && step.Acquire? && Enabled(s, step)
    requires OnePlaceEach(AfterAcquire(s, step, tuning))
    ensures FailedStayOut(AfterAcquire(s, step, tuning))
  {
    var taken := TakeQueue(s.parked, step.topic, step.closed, s.now, tuning.ttl);
    var granted := Grant(taken, step.built);
    TakeKeepsFailedOut(s, step, tuning);
    GrantedMade(s, step, tuning);
    if granted.Some? {
      var c := granted.value;
      if step.placed {
        GrantKeepsFailedOut(taken.queue.parked, s.leases, s.failed, step.id, Lease(c, step.topic, true, false));
      } else {
        RetiredStaysOut(AfterAcquire(s, step, tuning), c);
        RefusalKeepsFailedOut(taken.queue.parked, s.leases, s.failed, c);
      }
    }
  }

  lemma RetiredStaysOut(s: State, c: Consumer)
    requires OnePlaceEach(s) && c in s.retired
    ensures c !in Consumers(s.parked)
    ensures forall l | l in s.leases && !s.leases[l].released :: s.leases[l].consumer != c
  {
    HeldInOnePlace(s, c);
    NotHeld(s, c);
  }

  lemma NotHeld(s: State, c: Consumer)
    requires Holders(s.leases, c) == {}
    ensures forall l | l in s.leases && !s.leases[l].released :: s.leases[l].consumer != c
  {
    forall l | l in s.leases && !s.leases[l].released ensures s.leases[l].consumer != c {
      assert l !in Holders(s.leases, c);
    }
  }

  /** What an acquire leaves tidy and counted, the consumers' places aside. */
  lemma AcquireKeepsTidy(s: State, step: Step, tuning: Tuning)
    requires Inv(s, tuning) && step.Acquire? && Enabled(s, step)
    ensures var s' := AfterAcquire(s, step, tuning);
            && Tidy(s'.parked, tuning, s'.now, s'.swept) && s'.swept <= s'.now
            && s'.failed <= s'.made && HandedOnce(s')
  {
    TakeTidy(s.parked, step.topic, step.closed, tuning, s.now, s.swept);
  }

  lemma AcquireKeepsInv(s: State, step: Step, tuning: Tuning)
    requires Inv(s, tuning) && step.Acquire? && Enabled(s, step)
    ensures Inv(AfterAcquire(s, step, tuning), tuning)
  {
    AcquireKeepsTidy(s, step, tuning);
    AcquireKeepsPlaces(s, step, tuning);
    AcquireKeepsFailedOut(s, step, tuning);
  }

  lemma ReturnKeepsPlaces(s: State, id: LeaseId, later: Instant, tuning: Tuning)
    requires Inv(s, tuning) && id in s.leases && !s.leases[id].released && s.now <= later
    ensures OnePlaceEach(AfterReturn(s, id, later, tuning))
  {
    var lease := s.leases[id];
    var s' := AfterReturn(s, id, later, tuning);
    var queue := Return(s.parked, lease.topic, lease.consumer, lease.reusable, s.now, later, tuning);
    ReturnTidy(s.parked, lease.topic, lease.consumer, lease.reusable, tuning, s.now, later, s.swept);
    forall c ensures Places(s', c) == if c in s'.made then 1 else 0 {
      assert Places(s, c) == if c in s.made then 1 else 0;
      LeaseReleased(s.leases, id, c);
      assert (multiset(Consumers(s.parked)) + multiset{lease.consumer})[c]
          == (multiset(Consumers(queue.parked)) + multiset(queue.evicted))[c];
    }
  }

  lemma ReturnKeepsFailedOut(s: State, id: LeaseId, later: Instant, tuning: Tuning)
    requires Inv(s, tuning) && id in s.leases && !s.leases[id].released && s.now <= later
    ensures FailedStayOut(AfterReturn(s, id, later, tuning))
  {
    var lease := s.leases[id];
    var s' := AfterReturn(s, id, later, tuning);
    ReturnTidy(s.parked, lease.topic, lease.consumer, lease.reusable, tuning, s.now, later, s.swept);
    QueueGrows(s.parked, lease.consumer, s'.parked,
      multiset(Return(s.parked, lease.topic, lease.consumer, lease.reusable, s.now, later, tuning).evicted));
  }

  lemma QueueGrows(before: seq<Parked>, returned: Consumer, after: seq<Parked>, rest: multiset<Consumer>)
    requires multiset(Consumers(before)) + multiset{returned} == multiset(Consumers(after)) + rest
    ensures forall c | c in Consumers(after) :: c in Consumers(before) || c == returned
  {
    forall c | c in Consumers(after) ensures c in Consumers(before) || c == returned {
      assert c in multiset(Consumers(after)) + rest;
    }
  }

  lemma ReturnKeepsInv(s: State, id: LeaseId, later: Instant, tuning: Tuning)
    requires Inv(s, tuning) && id in s.leases && s.now <= later
    ensures Inv(AfterReturn(s, id, later, tuning), tuning)
    ensures AfterReturn(s, id, later, tuning).leases[id].released
  {
    var lease := s.leases[id];
    if lease.released {
      var s' := AfterReturn(s, id, later, tuning);
      forall c ensures Places(s', c) == if c in s'.made then 1 else 0 {
        assert Places(s, c) == if c in s.made then 1 else 0;
      }
    } else {
      ReturnTidy(s.parked, lease.topic, lease.consumer, lease.reusable, tuning, s.now, later, s.swept);
      ReturnKeepsPlaces(s, id, later, tuning);
      ReturnKeepsFailedOut(s, id, later, tuning);
    }
  }

  lemma FailKeepsInv(s: State, id: LeaseId, tuning: Tuning)
    requires Inv(s, tuning) && id in s.leases
    ensures Inv(After(s, Fail(id), tuning), tuning)
  {
    var s' := After(s, Fail(id), tuning);
    var c := s.leases[id].consumer;
    forall x ensures Places(s', x) == if x in s'.made then 1 else 0 {
      assert Places(s, x) == if x in s.made then 1 else 0;
      assert Holders(s'.leases, x) == Holders(s.leases, x);
    }
    if !s.leases[id].released {
      assert id in Holders(s.leases, c);
      HeldInOnePlace(s, c);
      forall l | l in s.leases && !s.leases[l].released && s.leases[l].consumer == c ensures l == id {
        assert l in Holders(s.leases, c);
      }
    }
  }

  lemma DroppedKeepsInv(s: State, id: LeaseId, tuning: Tuning)
    requires Inv(s, tuning) && id in s.leases && s.leases[id].released
    ensures Inv(s.(leases := s.leases - {id}), tuning)
  {
    var s' := s.(leases := s.leases - {id});
    forall c ensures Places(s', c) == if c in s'.made then 1 else 0 {
      assert Places(s, c) == if c in s.made then 1 else 0;
      assert Holders(s'.leases, c) == Holders(s.leases, c);
    }
  }

  /** Every step of every run keeps the invariant. */
  lemma StepKeepsInv(s: State, step: Step, tuning: Tuning)
    requires Inv(s, tuning) && Enabled(s, step)
    ensures Inv(After(s, step, tuning), tuning)
  {
    match step
    case Acquire(_, _, _, _, _) => AcquireKeepsInv(s, step, tuning);
    case Fail(id) => FailKeepsInv(s, id, tuning);
    case Close(id, later) => ReturnKeepsInv(s, id, later, tuning);
    case DropLease(id, later) =>
      ReturnKeepsInv(s, id, later, tuning);
      DroppedKeepsInv(AfterReturn(s, id, later, tuning), id, tuning);
    case Sweep =>
      var s' := After(s, step, tuning);
      ExpireTidy(s.parked, tuning, s.now, s.swept);
      QueueShrinks(s.parked, s'.parked, multiset(ExpireQueue(s.parked, s.now, tuning.ttl).evicted));
      forall c ensures Places(s', c) == if c in s'.made then 1 else 0 {
        assert Places(s, c) == if c in s.made then 1 else 0;
      }
    case Tick(elapsed) =>
      var s' := After(s, step, tuning);
      forall c ensures Places(s', c) == if c in s'.made then 1 else 0 {
        assert Places(s, c) == if c in s.made then 1 else 0;
      }
  }

  // --------------------------------------------------------------------- runs

  /** The state a run of steps reaches, if each was possible where it was taken. */
  ghost function Reached(steps: seq<Step>, tuning: Tuning): Option<State> {
    if steps == [] then Some(START)
    else
      var step := steps[|steps| - 1];
      match Reached(steps[..|steps| - 1], tuning)
      case None => None
      case Some(s) => if Enabled(s, step) then Some(After(s, step, tuning)) else None
  }

  /** In every state a run reaches, each consumer made is in exactly one place, once. */
  lemma {:induction false} RunKeepsInv(steps: seq<Step>, tuning: Tuning)
    requires Reached(steps, tuning).Some?
    ensures Inv(Reached(steps, tuning).value, tuning)
  {
    if steps == [] {
      assert forall c :: Holders(map[], c) == {};
    } else {
      var front := steps[..|steps| - 1];
      RunKeepsInv(front, tuning);
      StepKeepsInv(Reached(front, tuning).value, steps[|steps| - 1], tuning);
    }
  }

  /** Nothing is taken back: no failure, lease id or hand-over, and no retired consumer. */
  ghost predicate OnlyAdds(s: State, s': State) {
    && s.failed <= s'.failed && s.made <= s'.made && s.retired <= s'.retired
    && s.handed.Keys <= s'.handed.Keys
    && (forall l | l in s.handed :: s.handed[l] <= s'.handed[l])
  }

  lemma AcquireOnlyAdds(s: State, step: Step, tuning: Tuning)
    requires step.Acquire? && step.id !in s.handed
    ensures OnlyAdds(s, AfterAcquire(s, step, tuning))
  {
  }

  lemma ReturnOnlyAdds(s: State, id: LeaseId, later: Instant, tuning: Tuning)
    requires id in s.leases
    ensures OnlyAdds(s, AfterReturn(s, id, later, tuning))
  {
  }

  lemma StepOnlyAdds(s: State, step: Step, tuning: Tuning)
    requires Enabled(s, step)
    ensures OnlyAdds(s, After(s, step, tuning))
  {
    match step
    case Acquire(_, _, _, _, _) => AcquireOnlyAdds(s, step, tuning);
    case Fail(_) =>
    case Close(id, later) => ReturnOnlyAdds(s, id, later, tuning);
    case DropLease(id, later) => ReturnOnlyAdds(s, id, later, tuning);
    case Sweep =>
    case Tick(_) =>
  }

  /** A lease a step grants holds no failed or retired consumer, and no other lease changes hands. */
  lemma StepGrantsNoneGone(s: State, step: Step, tuning: Tuning)
    requires Inv(s, tuning) && Enabled(s, step)
    ensures var s' := After(s, step, tuning);
            forall l | l in s'.leases ::
              if l in s.handed then l in s.leases && s'.leases[l].consumer == s.leases[l].consumer
              else s'.leases[l].consumer !in s.failed && s'.leases[l].consumer !in s.retired
  {
    if step.Acquire? {
      GrantedMade(s, step, tuning);
      var granted := Grant(TakeQueue(s.parked, step.topic, step.closed, s.now, tuning.ttl), step.built);
      if granted.Some? { HeldInOnePlace(s, granted.value); }
    }
  }

  /** `c` failed or was retired, is not parked, and is held by no lease outside `known`. */
  ghost predicate Gone(s: State, c: Consumer, known: set<LeaseId>) {
    && (c in s.failed || c in s.retired)
    && c !in Consumers(s.parked)
    && known <= s.handed.Keys
    && (forall l | l in s.leases && s.leases[l].consumer == c :: l in known)
  }

  lemma GoneNow(s: State, tuning: Tuning, c: Consumer)
    requires Inv(s, tuning) && (c in s.failed || c in s.retired)
    ensures Gone(s, c, s.handed.Keys)
  {
    HeldInOnePlace(s, c);
    assert forall l | l in s.leases :: l in s.leases.Keys;
  }

  lemma StepKeepsGone(s: State, step: Step, tuning: Tuning, c: Consumer, known: set<LeaseId>, s': State)
    requires Inv(s, tuning) && Enabled(s, step) && s' == After(s, step, tuning)
    requires Inv(s', tuning) && Gone(s, c, known)
    ensures Gone(s', c, known)
  {
    StepOnlyAdds(s, step, tuning);
    StepGrantsNoneGone(s, step, tuning);
    HeldInOnePlace(s', c);
  }

  /**
   * A consumer that failed, or was retired, is never parked again, and no lease
   * granted later ever holds it.
   */
  lemma {:induction false} FailedNeverReturns(earlier: seq<Step>, later: seq<Step>, tuning: Tuning, c: Consumer)
    requires Reached(earlier, tuning).Some? && Reached(earlier + later, tuning).Some?
    requires c in Reached(earlier, tuning).value.failed || c in Reached(earlier, tuning).value.retired
    ensures Gone(Reached(earlier + later, tuning).value, c, Reached(earlier, tuning).value.handed.Keys)
    decreases |later|
  {
    var steps := earlier + later;
    if later == [] {
      assert steps == earlier;
      RunKeepsInv(earlier, tuning);
      GoneNow(Reached(earlier, tuning).value, tuning, c);
    } else {
      var front := later[..|later| - 1];
      assert steps[..|steps| - 1] == earlier + front;
      FailedNeverReturns(earlier, front, tuning, c);
      RunKeepsInv(earlier + front, tuning);
      RunKeepsInv(steps, tuning);
      StepKeepsGone(Reached(earlier + front, tuning).value, steps[|steps| - 1], tuning, c,
                    Reached(earlier, tuning).value.handed.Keys, Reached(steps, tuning).value);
    }
  }

  /** A lease hands its consumer back once: when closed or dropped first, and never again. */
  lemma HandsBackOnce(s: State, id: LeaseId, closing: Instant, dropping: Instant, tuning: Tuning)
    requires Inv(s, tuning) && id in s.leases && s.now <= closing <= dropping
    ensures var closed := After(s, Close(id, closing), tuning);
            var dropped := After(closed, DropLease(id, dropping), tuning);
            && closed.handed[id] == 1 && dropped.handed[id] == 1 && id !in dropped.leases
            && dropped.parked == closed.parked && dropped.retired == closed.retired
            && After(s, DropLease(id, closing), tuning).handed[id] == 1
  {
    ReturnKeepsInv(s, id, closing, tuning);
  }

  /** While the last sweep is no older than the ttl, nothing parked has idled past twice the ttl. */
  lemma IdlesAtMostTwiceTtl(steps: seq<Step>, tuning: Tuning)
    requires Reached(steps, tuning).Some?
    requires Reached(steps, tuning).value.now <= Reached(steps, tuning).value.swept + tuning.ttl
    ensures var s := Reached(steps, tuning).value;
            forall p | p in s.parked :: s.now <= p.since + 2 * tuning.ttl
  {
    RunKeepsInv(steps, tuning);
  }

  // -------------------------------------------------------- what stays and is leased

  lemma {:induction false} KeptExactly(parked: seq<Parked>, now: Instant, ttl: nat, p: Parked)
    ensures p in Keep(parked, now, ttl) <==> p in parked && now <= p.since + ttl
    ensures forall c | c in Drop(parked, now, ttl) :: exists q :: q in parked && q.consumer == c && now > q.since + ttl
    decreases |parked|
  {
    if parked != [] {
      KeptExactly(parked[1..], now, ttl, p);
      assert parked == [parked[0]] + parked[1..];
      assert parked[0] in parked;
    }
  }

  lemma {:induction false} OtherTopicStays(parked: seq<Parked>, topic: string, closed: set<Consumer>, p: Parked)
    requires p in parked && p.topic != topic
    ensures p in TakeOpen(parked, topic, closed).queue.parked
    decreases |parked|
  {
    var index := Newest(parked, topic);
    if index.Some? {
      var i :| 0 <= i < |parked| && parked[i] == p;
      var rest := Without(parked, index.value);
      assert rest[if i < index.value then i else i - 1] == p;
      if parked[index.value].consumer in closed { OtherTopicStays(rest, topic, closed, p); }
    }
  }

  lemma FreshOfOtherTopicStays(s: State, step: Step, tuning: Tuning, p: Parked)
    requires Inv(s, tuning) && step.Acquire? && p in s.parked && p.topic != step.topic
    requires s.now <= p.since + tuning.ttl
    ensures p in AfterAcquire(s, step, tuning).parked
  {
    ExpireIsExact(s.parked, s.now, tuning.ttl);
    KeptExactly(s.parked, s.now, tuning.ttl, p);
    OtherTopicStays(ExpireQueue(s.parked, s.now, tuning.ttl).parked, step.topic, step.closed, p);
  }

  lemma FreshStaysOnReturn(s: State, id: LeaseId, later: Instant, tuning: Tuning, p: Parked)
    requires Inv(s, tuning) && id in s.leases && p in s.parked
    requires s.now <= p.since + tuning.ttl
    ensures p in AfterReturn(s, id, later, tuning).parked
  {
    var lease := s.leases[id];
    if !lease.released {
      ReturnIsExact(s.parked, lease.topic, lease.consumer, lease.reusable, s.now, later, tuning);
      KeptExactly(s.parked, s.now, tuning.ttl, p);
    }
  }

  /** Idle no longer than the ttl, an entry stays parked through any step but an acquire of its topic. */
  lemma StepKeepsFresh(s: State, step: Step, tuning: Tuning, p: Parked)
    requires Inv(s, tuning) && Enabled(s, step) && p in s.parked
    requires s.now <= p.since + tuning.ttl
    requires step.Acquire? ==> step.topic != p.topic
    ensures p in After(s, step, tuning).parked
  {
    match step
    case Acquire(_, _, _, _, _) => FreshOfOtherTopicStays(s, step, tuning, p);
    case Fail(_) =>
    case Close(id, later) => FreshStaysOnReturn(s, id, later, tuning, p);
    case DropLease(id, later) => FreshStaysOnReturn(s, id, later, tuning, p);
    case Sweep =>
      ExpireIsExact(s.parked, s.now, tuning.ttl);
      KeptExactly(s.parked, s.now, tuning.ttl, p);
    case Tick(_) =>
  }

  lemma ClockNeverTurnsBack(s: State, step: Step, tuning: Tuning)
    requires Enabled(s, step)
    ensures s.now <= After(s, step, tuning).now
  {
  }

  /** In every run, what is parked stays parked until its ttl has passed or its topic is acquired. */
  lemma {:induction false} StaysParked(earlier: seq<Step>, later: seq<Step>, tuning: Tuning, p: Parked)
    requires Reached(earlier, tuning).Some? && Reached(earlier + later, tuning).Some?
    requires p in Reached(earlier, tuning).value.parked
    requires forall step | step in later && step.Acquire? :: step.topic != p.topic
    requires Reached(earlier + later, tuning).value.now <= p.since + tuning.ttl
    ensures p in Reached(earlier + later, tuning).value.parked
    decreases |later|
  {
    var steps := earlier + later;
    if later == [] {
      assert steps == earlier;
    } else {
      var front, last := later[..|later| - 1], later[|later| - 1];
      assert steps[..|steps| - 1] == earlier + front && steps[|steps| - 1] == last;
      assert last in later && forall step | step in front :: step in later;
      var before := Reached(earlier + front, tuning).value;
      ClockNeverTurnsBack(before, last, tuning);
      StaysParked(earlier, front, tuning, p);
      RunKeepsInv(earlier + front, tuning);
      StepKeepsFresh(before, last, tuning, p);
    }
  }

  /** An entry an acquire of the topic may lease. */
  predicate Leasable(p: Parked, step: Step, now: Instant, ttl: nat) {
    step.Acquire? && p.topic == step.topic && now <= p.since + ttl && p.consumer !in step.closed
  }

  /**
   * An acquire whose consumer can be assigned leases the most recently parked consumer of the
   * topic that is open and idle no longer than the ttl; with none it leases the one built, if any.
   */
  lemma AcquireLeasesNewest(s: State, step: Step, tuning: Tuning)
    requires Inv(s, tuning) && step.Acquire? && step.placed && Enabled(s, step)
    ensures var leases := AfterAcquire(s, step, tuning).leases;
            if exists p :: p in s.parked && Leasable(p, step, s.now, tuning.ttl) then
              exists i ::
                && 0 <= i < |s.parked| && Leasable(s.parked[i], step, s.now, tuning.ttl)
                && (forall j | i < j < |s.parked| :: !Leasable(s.parked[j], step, s.now, tuning.ttl))
                && leases == s.leases[step.id := Lease(s.parked[i].consumer, step.topic, true, false)]
            else match step.built
              case None => leases == s.leases
              case Some(c) => leases == s.leases[step.id := Lease(c, step.topic, true, false)]
  {
    TakeIsExact(s.parked, step.topic, step.closed, s.now, tuning.ttl);
    var taken := TakeQueue(s.parked, step.topic, step.closed, s.now, tuning.ttl);
    forall i ensures Candidate(s.parked, i, step.topic, step.closed, s.now, tuning.ttl) <==>
      0 <= i < |s.parked| && Leasable(s.parked[i], step, s.now, tuning.ttl)
    {
    }
    if taken.consumer.Some? {
      var i :| Candidate(s.parked, i, step.topic, step.closed, s.now, tuning.ttl)
        && s.parked[i].consumer == taken.consumer.value
        && forall j | i < j :: !Candidate(s.parked, j, step.topic, step.closed, s.now, tuning.ttl);
      assert s.parked[i] in s.parked;
    }
  }

  lemma UniqueInQueue(s: State, p: Parked, q: Parked)
    requires OnePlaceEach(s) && p in s.parked && q in s.parked && p.consumer == q.consumer
    ensures p == q
  {
    assert Places(s, p.consumer) == if p.consumer in s.made then 1 else 0;
    if p != q {
      var i :| 0 <= i < |s.parked| && s.parked[i] == p;
      var j :| 0 <= j < |s.parked| && s.parked[j] == q;
      TwiceInQueue(Consumers(s.parked), if i < j then i else j, if i < j then j else i);
    }
  }

  lemma TwiceInQueue(consumers: seq<Consumer>, i: nat, j: nat)
    requires i < j < |consumers| && consumers[i] == consumers[j]
    ensures multiset(consumers)[consumers[i]] >= 2
  {
    assert consumers == consumers[..j] + [consumers[j]] + consumers[j + 1..];
    assert consumers[i] in consumers[..j];
    assert multiset(consumers)
        == multiset(consumers[..j]) + multiset{consumers[j]} + multiset(consumers[j + 1..]);
  }

  lemma FreshIsNotEvicted(s: State, step: Step, tuning: Tuning, p: Parked)
    requires Inv(s, tuning) && step.Acquire? && Enabled(s, step)
    requires p in s.parked && s.now <= p.since + tuning.ttl && p.consumer !in step.closed
    ensures p.consumer !in TakeQueue(s.parked, step.topic, step.closed, s.now, tuning.ttl).queue.evicted
  {
    TakeAccounts(s.parked, step.topic, step.closed, s.now, tuning.ttl);
    forall q | q in s.parked && q.consumer == p.consumer ensures q == p { UniqueInQueue(s, p, q); }
  }

  lemma FreshIsNotReturnedOut(s: State, id: LeaseId, later: Instant, tuning: Tuning, p: Parked)
    requires Inv(s, tuning) && id in s.leases && !s.leases[id].released
    requires p in s.parked && s.now <= p.since + tuning.ttl
    ensures var lease := s.leases[id];
            p.consumer !in Return(s.parked, lease.topic, lease.consumer, lease.reusable, s.now, later, tuning).evicted
  {
    var lease := s.leases[id];
    ReturnIsExact(s.parked, lease.topic, lease.consumer, lease.reusable, s.now, later, tuning);
    KeptExactly(s.parked, s.now, tuning.ttl, p);
    forall q | q in s.parked && q.consumer == p.consumer ensures q == p { UniqueInQueue(s, p, q); }
    ParkedIsUnheld(s, p);
    assert id in Holders(s.leases, lease.consumer);
  }

  lemma ParkedIsUnheld(s: State, p: Parked)
    requires OnePlaceEach(s) && p in s.parked
    ensures Holders(s.leases, p.consumer) == {} && p.consumer !in s.retired
  {
    var i :| 0 <= i < |s.parked| && s.parked[i] == p;
    assert Consumers(s.parked)[i] == p.consumer;
    HeldInOnePlace(s, p.consumer);
  }

  /**
   * No step retires a parked consumer idle no longer than the ttl, unless an acquire finds it
   * closed or takes it and cannot assign it.
   */
  lemma StepRetiresNoneFresh(s: State, step: Step, tuning: Tuning, p: Parked)
    requires Inv(s, tuning) && Enabled(s, step)
    requires p in s.parked && s.now <= p.since + tuning.ttl
    requires step.Acquire? ==> p.consumer !in step.closed && (step.placed || step.topic != p.topic)
    ensures p.consumer !in After(s, step, tuning).retired
  {
    ParkedIsUnheld(s, p);
    match step
    case Acquire(_, _, _, _, placed) =>
      FreshIsNotEvicted(s, step, tuning, p);
      if !placed {
        FreshOfOtherTopicStays(s, step, tuning, p);
        AcquireKeepsInv(s, step, tuning);
        ParkedIsUnheld(AfterAcquire(s, step, tuning), p);
      }
    case Fail(_) =>
    case Close(id, later) => if !s.leases[id].released { FreshIsNotReturnedOut(s, id, later, tuning, p); }
    case DropLease(id, later) => if !s.leases[id].released { FreshIsNotReturnedOut(s, id, later, tuning, p); }
    case Sweep =>
      StepKeepsFresh(s, step, tuning, p);
      StepKeepsInv(s, step, tuning);
      ParkedIsUnheld(After(s, step, tuning), p);
    case Tick(_) =>
  }

  /**
   * Whatever the run so far, no step retires a parked consumer idle at most the ttl, unless an
   * acquire of its topic finds it closed or cannot assign it.
   */
  lemma FreshIsNeverRetired(steps: seq<Step>, step: Step, tuning: Tuning, p: Parked)
    requires Reached(steps, tuning).Some? && Enabled(Reached(steps, tuning).value, step)
    requires p in Reached(steps, tuning).value.parked && Reached(steps, tuning).value.now <= p.since + tuning.ttl
    requires step.Acquire? ==> p.consumer !in step.closed && (step.placed || step.topic != p.topic)
    ensures Reached(steps + [step], tuning).Some?
    ensures p.consumer !in Reached(steps + [step], tuning).value.retired
  {
    RunKeepsInv(steps, tuning);
    assert (steps + [step])[..|steps|] == steps;
    StepRetiresNoneFresh(Reached(steps, tuning).value, step, tuning, p);
  }

  // ----------------------------------------------------------------- out for good

  /** The consumer of every lease was built by the pool. */
  ghost predicate LeasesMade(s: State) {
    forall l | l in s.leases :: s.leases[l].consumer in s.made
  }

  lemma StepKeepsLeasesMade(s: State, step: Step, tuning: Tuning)
    requires Enabled(s, step) && LeasesMade(s)
    ensures LeasesMade(After(s, step, tuning))
  {
  }

  lemma {:induction false} RunKeepsLeasesMade(steps: seq<Step>, tuning: Tuning)
    requires Reached(steps, tuning).Some?
    ensures LeasesMade(Reached(steps, tuning).value)
    decreases |steps|
  {
    if steps != [] {
      var front := steps[..|steps| - 1];
      RunKeepsLeasesMade(front, tuning);
      StepKeepsLeasesMade(Reached(front, tuning).value, steps[|steps| - 1], tuning);
    }
  }

  /** After `later` the consumer is not parked, and no lease granted since `steps` holds it. */
  ghost predicate OutAfter(steps: seq<Step>, later: seq<Step>, tuning: Tuning, c: Consumer)
    requires Reached(steps, tuning).Some?
  {
    Reached(steps + later, tuning).Some? ==>
      var s := Reached(steps + later, tuning).value;
      && c !in Consumers(s.parked)
      && forall l | l in s.leases && s.leases[l].consumer == c :: l in Reached(steps, tuning).value.handed
  }

  /** However the run goes on, the consumer is never parked and no new lease ever holds it. */
  ghost predicate OutForGood(steps: seq<Step>, tuning: Tuning, c: Consumer)
    requires Reached(steps, tuning).Some?
  {
    forall later :: OutAfter(steps, later, tuning, c)
  }

  lemma ParkedIsNotOut(steps: seq<Step>, later: seq<Step>, tuning: Tuning, c: Consumer)
    requires Reached(steps, tuning).Some? && Reached(steps + later, tuning).Some?
    requires c in Consumers(Reached(steps + later, tuning).value.parked)
    ensures !OutForGood(steps, tuning, c)
  {
    assert !OutAfter(steps, later, tuning, c);
  }

  lemma {:induction false} AllExpire(parked: seq<Parked>, now: Instant, ttl: nat)
    requires forall p | p in parked :: now > p.since + ttl
    ensures ExpireQueue(parked, now, ttl).parked == []
    decreases |parked|
  {
    if parked != [] {
      assert parked[0] in parked;
      AllExpire(parked[1..], now, ttl);
    }
  }

  /** Closing a reusable lease once everything parked has expired parks its consumer. */
  lemma WaitedCloseParks(s: State, id: LeaseId, later: Instant, tuning: Tuning)
    requires tuning.perTopic > 0 && tuning.total > 0
    requires id in s.leases && !s.leases[id].released && s.leases[id].reusable
    requires forall p | p in s.parked :: s.now > p.since + tuning.ttl
    ensures s.leases[id].consumer in Consumers(AfterReturn(s, id, later, tuning).parked)
  {
    AllExpire(s.parked, s.now, tuning.ttl);
    var parked := AfterReturn(s, id, later, tuning).parked;
    assert parked == [Parked(s.leases[id].topic, s.leases[id].consumer, later)];
    assert Consumers(parked)[0] == s.leases[id].consumer;
  }

  lemma HeldCanBeParked(steps: seq<Step>, tuning: Tuning, id: LeaseId)
    requires tuning.perTopic > 0 && tuning.total > 0
    requires Reached(steps, tuning).Some? && id in Reached(steps, tuning).value.leases
    requires !Reached(steps, tuning).value.leases[id].released && Reached(steps, tuning).value.leases[id].reusable
    ensures !OutForGood(steps, tuning, Reached(steps, tuning).value.leases[id].consumer)
  {
    var s := Reached(steps, tuning).value;
    RunKeepsInv(steps, tuning);
    WaitedExpires(s, tuning);
    var wait := Tick(tuning.ttl + 1);
    ReachedThen(steps, wait, tuning);
    var waited := After(s, wait, tuning);
    var close := Close(id, waited.now);
    ReachedThen(steps + [wait], close, tuning);
    WaitedCloseParks(waited, id, waited.now, tuning);
    assert steps + [wait] + [close] == steps + [wait, close];
    ParkedIsNotOut(steps, [wait, close], tuning, s.leases[id].consumer);
  }

  /** Once the ttl and a little more have passed, everything parked has expired. */
  lemma WaitedExpires(s: State, tuning: Tuning)
    requires Inv(s, tuning)
    ensures var waited := After(s, Tick(tuning.ttl + 1), tuning);
            && waited.leases == s.leases
            && forall p | p in waited.parked :: waited.now > p.since + tuning.ttl
  {
  }

  /** A consumer made and not retired is parked or held by one lease. */
  lemma WhereItIs(s: State, c: Consumer)
    requires OnePlaceEach(s) && c in s.made && c !in s.retired
    ensures c in Consumers(s.parked) || exists l :: l in s.leases && !s.leases[l].released && s.leases[l].consumer == c
  {
    assert Places(s, c) == 1;
    if c !in Consumers(s.parked) {
      assert Holders(s.leases, c) != {};
      var l :| l in Holders(s.leases, c);
    }
  }

  /**
   * In every run a consumer built is out for good, never parked and never leased again,
   * exactly when it failed while a lease or an acquire held it, or was retired.
   */
  lemma OutForGoodExactlyWhen(steps: seq<Step>, tuning: Tuning, c: Consumer)
    requires tuning.perTopic > 0 && tuning.total > 0
    requires Reached(steps, tuning).Some? && c in Reached(steps, tuning).value.made
    ensures var s := Reached(steps, tuning).value;
            OutForGood(steps, tuning, c) <==> c in s.failed || c in s.retired
  {
    var s := Reached(steps, tuning).value;
    RunKeepsInv(steps, tuning);
    if c in s.failed || c in s.retired {
      forall later ensures OutAfter(steps, later, tuning, c) {
        if Reached(steps + later, tuning).Some? { FailedNeverReturns(steps, later, tuning, c); }
      }
    } else {
      WhereItIs(s, c);
      if c in Consumers(s.parked) {
        assert steps + [] == steps;
        ParkedIsNotOut(steps, [], tuning, c);
      } else {
        var l :| l in s.leases && !s.leases[l].released && s.leases[l].consumer == c;
        HeldCanBeParked(steps, tuning, l);
      }
    }
  }

  /**
   * A failure marks its consumer while the lease still holds it: one recorded
   * after the lease was closed leaves the consumer where it went.
   */
  lemma FailureCountsWhileHeld(s: State, id: LeaseId, tuning: Tuning)
    requires Inv(s, tuning) && id in s.leases
    ensures var s' := After(s, Fail(id), tuning);
            && s'.parked == s.parked && s'.retired == s.retired
            && (!s.leases[id].released ==> s.leases[id].consumer in s'.failed)
            && (s.leases[id].released ==> s'.failed == s.failed)
  {
  }

  /**
   * A failure recorded on a lease keeps its consumer from ever being parked or leased again
   * exactly when the lease has not released it, or the consumer was out already.
   */
  lemma FailureKeepsOutExactlyWhen(steps: seq<Step>, id: LeaseId, tuning: Tuning)
    requires tuning.perTopic > 0 && tuning.total > 0
    requires Reached(steps, tuning).Some? && id in Reached(steps, tuning).value.leases
    ensures Reached(steps + [Fail(id)], tuning).Some?
    ensures var s := Reached(steps, tuning).value;
            var c := s.leases[id].consumer;
            OutForGood(steps + [Fail(id)], tuning, c) <==>
              !s.leases[id].released || c in s.failed || c in s.retired
  {
    var s := Reached(steps, tuning).value;
    RunKeepsInv(steps, tuning);
    RunKeepsLeasesMade(steps, tuning);
    ReachedThen(steps, Fail(id), tuning);
    FailureCountsWhileHeld(s, id, tuning);
    OutForGoodExactlyWhen(steps + [Fail(id)], tuning, s.leases[id].consumer);
  }

  lemma ReachedThen(front: seq<Step>, step: Step, tuning: Tuning)
    requires Reached(front, tuning).Some? && Enabled(Reached(front, tuning).value, step)
    ensures Reached(front + [step], tuning) == Some(After(Reached(front, tuning).value, step, tuning))
  {
    assert (front + [step])[..|front + [step]| - 1] == front;
  }

  /** A lease closed, its consumer parked, and only then a failure. */
  lemma FailsOnceParked() returns (steps: seq<Step>, s: State)
    ensures steps == [Acquire("t", 0, {}, Some(7), true), Close(0, 0), Fail(0)]
    ensures Reached(steps, Tuning(1, 1, 0)) == Some(s)
    ensures s.parked == [Parked("t", 7, 0)] && s.now == 0
    ensures s.leases == map[0 := Lease(7, "t", false, true)] && s.handed.Keys == {0}
  {
    var tuning, acquire := Tuning(1, 1, 0), Acquire("t", 0, {}, Some(7), true);
    ReachedThen([], acquire, tuning);
    var one := Reached([] + [acquire], tuning).value;
    assert one.leases == map[0 := Lease(7, "t", true, false)] && one.parked == [];
    ReachedThen([] + [acquire], Close(0, 0), tuning);
    assert OfTopic([], "t") == 0;
    var two := Reached([] + [acquire] + [Close(0, 0)], tuning).value;
    assert two.leases == map[0 := Lease(7, "t", true, true)] && two.parked == [Parked("t", 7, 0)];
    ReachedThen([] + [acquire] + [Close(0, 0)], Fail(0), tuning);
    steps := [acquire, Close(0, 0), Fail(0)];
    assert [] + [acquire] + [Close(0, 0)] + [Fail(0)] == steps;
    s := Reached(steps, tuning).value;
  }

  /** One such late failure: closed, parked, then failed, and leased again as if it had not. */
  lemma LateFailureIsLeasedAgain()
    ensures var steps := [Acquire("t", 0, {}, Some(7), true), Close(0, 0), Fail(0), Acquire("t", 1, {}, None, true)];
            var reached := Reached(steps, Tuning(1, 1, 0));
            && reached.Some? && reached.value.parked == []
            && reached.value.leases == map[0 := Lease(7, "t", false, true), 1 := Lease(7, "t", true, false)]
  {
    var failed, s := FailsOnceParked();
    var again := Acquire("t", 1, {}, None, true);
    ReachedThen(failed, again, Tuning(1, 1, 0));
    assert TakeOpen(s.parked, "t", {}).consumer == Some(7);
    assert Without(s.parked, 0) == [];
    assert failed + [again] == [Acquire("t", 0, {}, Some(7), true), Close(0, 0), Fail(0), again];
  }
}
