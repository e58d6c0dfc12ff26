/** How fast topics grow between two committed watermark tables. */
module Rates {
  import opened Sequences
  import opened Session
  import opened SortedInts
  import opened TopicOrder
  import opened Wrappers

  datatype TopicRate = TopicRate(topic: string, rate: real)

  // ------------------------------------------------------------------------ sums

  ghost function Sum(keys: set<int>, value: int -> int): int
    decreases |keys|
  {
    if keys == {} then 0 else value(Least(keys)) + Sum(keys - {Least(keys)}, value)
  }

  /** A sum does not depend on which partition is added first. */
  lemma {:induction false} SumTakesAny(keys: set<int>, key: int, value: int -> int)
    requires key in keys
    ensures Sum(keys, value) == value(key) + Sum(keys - {key}, value)
    decreases |keys|
  {
    var least := Least(keys);
    if key != least {
      SumTakesAny(keys - {least}, key, value);
      LeastStays(keys, key);
      assert keys - {least} - {key} == keys - {key} - {least};
    }
  }

  lemma LeastStays(keys: set<int>, key: int)
    requires key in keys && key != Least(keys)
    ensures Least(keys) in keys - {key}
    ensures Least(keys - {key}) == Least(keys)
  {
  }

  function Positive(value: int): nat {
    if value > 0 then value else 0
  }

  /** What one partition gained: nothing where it had no mark before or its high fell. */
  function Gain(before: Option<Watermarks>, after: Watermarks): nat {
    Positive(after.high - if before.Some? then before.value.high else after.high)
  }

  ghost function Produced(previous: Marks, topic: string, partitions: map<int, Watermarks>): int {
    Sum(partitions.Keys, p => if p in partitions then Gain(At(previous, topic, p), partitions[p]) else 0)
  }

  ghost function TotalHigh(partitions: map<int, Watermarks>): int {
    Sum(partitions.Keys, p => if p in partitions then partitions[p].high else 0)
  }

  /** The same partitions, none of whose highs fell. */
  predicate Grows(before: map<int, Watermarks>, after: map<int, Watermarks>) {
    before.Keys == after.Keys && forall p | p in after :: before[p].high <= after[p].high
  }

  lemma {:induction false} SumsDiffer(keys: set<int>, gain: int -> int, before: int -> int, after: int -> int)
    requires forall k | k in keys :: gain(k) == after(k) - before(k)
    ensures Sum(keys, gain) == Sum(keys, after) - Sum(keys, before)
    decreases |keys|
  {
    if keys != {} { SumsDiffer(keys - {Least(keys)}, gain, before, after); }
  }

  /** What a topic that only grew produced is how far its highs rose together. */
  lemma ProducedIsGrowth(previous: Marks, topic: string, partitions: map<int, Watermarks>)
    requires topic in previous && Grows(previous[topic], partitions)
    ensures Produced(previous, topic, partitions) == TotalHigh(partitions) - TotalHigh(previous[topic])
  {
    var before := previous[topic];
    SumsDiffer(partitions.Keys,
      p => if p in partitions then Gain(At(previous, topic, p), partitions[p]) else 0,
      p => if p in before then before[p].high else 0,
      p => if p in partitions then partitions[p].high else 0);
  }

  /** The partitions that had a mark before and whose high has risen since. */
  function Risen(previous: Marks, topic: string, partitions: map<int, Watermarks>): set<int> {
    set p | p in partitions && topic in previous && p in previous[topic]
            && previous[topic][p].high < partitions[p].high
  }

  lemma {:induction false} SumOfTheRest(keys: set<int>, part: set<int>, value: int -> int)
    requires part <= keys && forall k | k in keys - part :: value(k) == 0
    ensures Sum(keys, value) == Sum(part, value)
    decreases |keys - part|
  {
    if k :| k in keys - part {
      SumTakesAny(keys, k, value);
      assert keys - {k} - part == keys - part - {k};
      SumOfTheRest(keys - {k}, part, value);
    } else {
      assert forall k | k in keys :: k !in keys - part;
      assert keys == part;
    }
  }

  /** Produced is the rise of the partitions that rose: a new partition or a fallen high adds nothing. */
  lemma ProducedIsTheRise(previous: Marks, topic: string, partitions: map<int, Watermarks>)
    ensures var risen := Risen(previous, topic, partitions);
            Produced(previous, topic, partitions)
              == Sum(risen, p => if p in partitions then partitions[p].high else 0)
                 - Sum(risen, p => if topic in previous && p in previous[topic] then previous[topic][p].high else 0)
  {
    var risen := Risen(previous, topic, partitions);
    var gain := p => if p in partitions then Gain(At(previous, topic, p), partitions[p]) else 0;
    SumOfTheRest(partitions.Keys, risen, gain);
    SumsDiffer(risen, gain,
      p => if topic in previous && p in previous[topic] then previous[topic][p].high else 0,
      p => if p in partitions then partitions[p].high else 0);
  }

  method SumProduced(previous: Marks, topic: string, partitions: map<int, Watermarks>) returns (produced: int)
    ensures produced == Produced(previous, topic, partitions)
  {
    ghost var gain := p => if p in partitions then Gain(At(previous, topic, p), partitions[p]) else 0;
    produced := 0;
    var left := partitions.Keys;
    while left != {}
      invariant left <= partitions.Keys
      invariant produced + Sum(left, gain) == Sum(partitions.Keys, gain)
    {
      assert (forall p :: p !in left) ==> left == {};
      var partition :| partition in left;
      SumTakesAny(left, partition, gain);
      produced := produced + Gain(At(previous, topic, partition), partitions[partition]);
      left := left - {partition};
    }
  }

  // ----------------------------------------------------------------------- rates

  /** To the nearest thousandth. */
  function RoundRate(value: real): real {
    (value * 1000.0 + 0.5).Floor as real / 1000.0
  }

  /** A rounded rate is a whole number of thousandths, the nearest one, and the upper of two as near. */
  lemma RoundsWithinHalfAThousandth(value: real)
    ensures (RoundRate(value) * 1000.0).Floor as real == RoundRate(value) * 1000.0
    ensures -0.0005 < RoundRate(value) - value <= 0.0005
  {
    var floor := (value * 1000.0 + 0.5).Floor as real;
    assert floor <= value * 1000.0 + 0.5 < floor + 1.0;
  }

  /** The table the rates are measured from, and the seconds since it was committed. */
  datatype Baseline = Baseline(previous: Marks, seconds: real)

  ghost function UnroundedRate(baseline: Option<Baseline>, topic: string, partitions: map<int, Watermarks>): real
    requires baseline.Some? ==> baseline.value.seconds > 0.0
  {
    match baseline
    case None => 0.0
    case Some(Baseline(previous, seconds)) => Produced(previous, topic, partitions) as real / seconds
  }

  ghost function RatesOf(baseline: Option<Baseline>, next: Marks): map<string, real>
    requires baseline.Some? ==> baseline.value.seconds > 0.0
  {
    map t | t in next :: RoundRate(UnroundedRate(baseline, t, next[t]))
  }

  function RateKey(rate: TopicRate): TopicPartition {
    TopicPartition(rate.topic, 0)
  }

  /** The list holds the rates of the map, one a topic, sorted by topic. */
  ghost predicate Lists(rates: seq<TopicRate>, table: map<string, real>) {
    && (forall i, j | 0 <= i < j < |rates| :: TextBelow(rates[i].topic, rates[j].topic))
    && (forall r | r in rates :: r.topic in table && table[r.topic] == r.rate)
    && (forall t | t in table :: TopicRate(t, table[t]) in rates)
  }

  ghost predicate Collects(rates: seq<TopicRate>, table: map<string, real>) {
    && (forall i, j | 0 <= i < j < |rates| :: rates[i].topic != rates[j].topic)
    && (forall r | r in rates :: r.topic in table && table[r.topic] == r.rate)
    && (forall t | t in table :: TopicRate(t, table[t]) in rates)
  }

  method RatesBetween(baseline: Option<Baseline>, next: Marks) returns (rates: seq<TopicRate>)
    requires baseline.Some? ==> baseline.value.seconds > 0.0
    ensures Lists(rates, RatesOf(baseline, next))
  {
    var collected: seq<TopicRate> := [];
    var left := next.Keys;
    ghost var done: map<string, real> := map[];
    while left != {}
      invariant left !! done.Keys && left + done.Keys == next.Keys
      invariant forall t | t in done :: done[t] == RatesOf(baseline, next)[t]
      invariant Collects(collected, done)
      decreases left
    {
      var topic :| topic in left;
      var rate := 0.0;
      if baseline.Some? {
        var produced := SumProduced(baseline.value.previous, topic, next[topic]);
        rate := produced as real / baseline.value.seconds;
      }
      CollectsGrows(collected, done, topic, RoundRate(rate));
      collected := collected + [TopicRate(topic, RoundRate(rate))];
      left, done := left - {topic}, done[topic := RoundRate(rate)];
    }
    assert done == RatesOf(baseline, next);
    rates := Sort(collected, RateKey);
    SortedLists(collected, rates, done);
  }

  lemma CollectsGrows(rates: seq<TopicRate>, table: map<string, real>, topic: string, rate: real)
    requires Collects(rates, table) && topic !in table
    ensures Collects(rates + [TopicRate(topic, rate)], table[topic := rate])
  {
    var more := rates + [TopicRate(topic, rate)];
    forall i, j | 0 <= i < j < |more| ensures more[i].topic != more[j].topic {
      assert more[i] in rates;
    }
    var added := table[topic := rate];
    forall t | t in added ensures TopicRate(t, added[t]) in more {
      if t != topic { assert TopicRate(t, table[t]) in rates; }
    }
  }

  lemma SortedLists(collected: seq<TopicRate>, rates: seq<TopicRate>, table: map<string, real>)
    requires Collects(collected, table)
    requires SortedBy(rates, RateKey) && multiset(rates) == multiset(collected)
    ensures Lists(rates, table)
  {
    forall r ensures r in rates <==> r in collected {
      assert r in multiset(rates) <==> r in multiset(collected);
    }
    forall i, j | 0 <= i < j < |rates| ensures TextBelow(rates[i].topic, rates[j].topic) {
      assert Upto(RateKey(rates[i]), RateKey(rates[j]));
      assert rates[i] in collected && rates[j] in collected;
      if rates[i].topic == rates[j].topic { CollectedOnce(collected, rates, table, i, j); }
    }
  }

  lemma CollectedOnce(
      collected: seq<TopicRate>, rates: seq<TopicRate>, table: map<string, real>, i: nat, j: nat)
    requires Collects(collected, table) && multiset(rates) == multiset(collected)
    requires i < j < |rates|
    ensures rates[i] != rates[j]
  {
    if rates[i] == rates[j] {
      var r := rates[i];
      assert rates == rates[..j] + [r] + rates[j + 1..] && r in rates[..j];
      assert multiset(rates) == multiset(rates[..j]) + multiset{r} + multiset(rates[j + 1..]);
      OnceEach(collected, r);
    }
  }

  lemma {:induction false} OnceEach(rates: seq<TopicRate>, r: TopicRate)
    requires forall i, j | 0 <= i < j < |rates| :: rates[i].topic != rates[j].topic
    ensures multiset(rates)[r] <= 1
    decreases |rates|
  {
    if rates != [] {
      var front, last := rates[..|rates| - 1], rates[|rates| - 1];
      OnceEach(front, r);
      assert rates == front + [last];
      if r == last { assert r !in front; }
    }
  }

  // ---------------------------------------------------------- publishing changes

  function Differs(stored: map<string, real>, update: TopicRate): bool {
    !(update.topic in stored && stored[update.topic] == update.rate)
  }

  function Stored(stored: map<string, real>, updates: seq<TopicRate>): map<string, real>
    decreases updates
  {
    if updates == [] then stored else Stored(stored[updates[0].topic := updates[0].rate], updates[1..])
  }

  function Kept(stored: map<string, real>, updates: seq<TopicRate>): seq<TopicRate>
    decreases updates
  {
    if updates == [] then []
    else (if Differs(stored, updates[0]) then [updates[0]] else [])
         + Kept(stored[updates[0].topic := updates[0].rate], updates[1..])
  }

  /** The rates last told to subscribers. */
  class RateStore {
    var topicRates: map<string, real>

    constructor ()
      ensures topicRates == map[]
    {
      topicRates := map[];
    }

    method Replace(update: TopicRate) returns (changed: bool)
      modifies this
      ensures topicRates == old(topicRates)[update.topic := update.rate]
      ensures changed == Differs(old(topicRates), update)
    {
      changed := Differs(topicRates, update);
      topicRates := topicRates[update.topic := update.rate];
    }

    /** Stores every rate and keeps only the ones that changed. */
    method KeepChanged(updates: seq<TopicRate>) returns (kept: seq<TopicRate>)
      modifies this
      ensures topicRates == Stored(old(topicRates), updates)
      ensures kept == Kept(old(topicRates), updates)
    {
      kept := [];
      for i := 0 to |updates|
        invariant Stored(topicRates, updates[i..]) == Stored(old(topicRates), updates)
        invariant kept + Kept(topicRates, updates[i..]) == Kept(old(topicRates), updates)
      {
        ghost var before, rest := kept, Kept(topicRates[updates[i].topic := updates[i].rate], updates[i + 1..]);
        assert updates[i..][1..] == updates[i + 1..];
        var changed := Replace(updates[i]);
        if changed {
          kept := kept + [updates[i]];
          Assoc(before, [updates[i]], rest);
        }
      }
    }

    /** Forgets the topics that are gone. */
    method Retain(live: set<string>)
      modifies this
      ensures topicRates == Living(old(topicRates), live)
    {
      topicRates := map t | t in topicRates && t in live :: topicRates[t];
    }
  }

  function Living(stored: map<string, real>, live: set<string>): map<string, real> {
    map t | t in stored && t in live :: stored[t]
  }

  /** The rates that differ from those stored before. */
  function Changed(stored: map<string, real>, updates: map<string, real>): map<string, real> {
    map t | t in updates && !(t in stored && stored[t] == updates[t]) :: updates[t]
  }

  lemma TailLists(updates: seq<TopicRate>, table: map<string, real>)
    requires updates != [] && Lists(updates, table)
    ensures updates[0].topic in table && table[updates[0].topic] == updates[0].rate
    ensures Lists(updates[1..], table - {updates[0].topic})
  {
    var head, tail, rest := updates[0], updates[1..], table - {updates[0].topic};
    assert head in updates && updates == [head] + tail;
    HeadIsLeast(updates, table);
    TextBelowIsStrict(head.topic, head.topic);
    forall r | r in tail ensures r.topic in rest && rest[r.topic] == r.rate {
      assert r in updates && TextBelow(head.topic, r.topic);
    }
    forall t | t in rest ensures TopicRate(t, rest[t]) in tail {
      assert TopicRate(t, table[t]) in updates;
    }
  }

  lemma HeadLists(head: TopicRate, rates: seq<TopicRate>, table: map<string, real>)
    requires Lists(rates, table) && head.topic !in table
    requires forall r | r in rates :: TextBelow(head.topic, r.topic)
    ensures Lists([head] + rates, table[head.topic := head.rate])
  {
    var all, added := [head] + rates, table[head.topic := head.rate];
    forall i, j | 0 <= i < j < |all| ensures TextBelow(all[i].topic, all[j].topic) {
      assert all[j] in rates;
    }
    forall t | t in added ensures TopicRate(t, added[t]) in all {
      if t != head.topic { assert TopicRate(t, table[t]) in rates; }
    }
  }

  lemma {:induction false} KeptAreListed(stored: map<string, real>, updates: seq<TopicRate>)
    ensures forall r | r in Kept(stored, updates) :: r in updates
    decreases updates
  {
    if updates != [] { KeptAreListed(stored[updates[0].topic := updates[0].rate], updates[1..]); }
  }

  lemma ChangedSplits(stored: map<string, real>, head: TopicRate, table: map<string, real>)
    requires head.topic in table && table[head.topic] == head.rate
    ensures var rest, after := table - {head.topic}, stored[head.topic := head.rate];
            && after + rest == stored + table
            && Changed(after, rest) == Changed(stored, rest)
            && Changed(stored, table)
                 == if Differs(stored, head) then Changed(stored, rest)[head.topic := head.rate]
                    else Changed(stored, rest)
  {
  }

  lemma HeadIsLeast(updates: seq<TopicRate>, table: map<string, real>)
    requires updates != [] && Lists(updates, table)
    ensures updates[0].topic in table && table[updates[0].topic] == updates[0].rate
    ensures forall r | r in updates[1..] :: TextBelow(updates[0].topic, r.topic)
  {
    assert updates[0] in updates;
    forall r | r in updates[1..] ensures TextBelow(updates[0].topic, r.topic) {
      var i :| 0 <= i < |updates[1..]| && updates[1..][i] == r;
      assert TextBelow(updates[0].topic, updates[i + 1].topic);
    }
  }

  lemma HeadKept(
      stored: map<string, real>, head: TopicRate, tail: seq<TopicRate>, kept: seq<TopicRate>, table: map<string, real>)
    requires head.topic in table && table[head.topic] == head.rate
    requires forall r | r in tail :: TextBelow(head.topic, r.topic)
    requires Lists(kept, Changed(stored, table - {head.topic}))
    requires forall r | r in kept :: r in tail
    ensures Lists((if Differs(stored, head) then [head] else []) + kept, Changed(stored, table))
  {
    ChangedSplits(stored, head, table);
    if Differs(stored, head) {
      HeadLists(head, kept, Changed(stored, table - {head.topic}));
    } else {
      assert [] + kept == kept;
    }
  }

  lemma {:induction false} StoringIsMerging(
      stored: map<string, real>, updates: seq<TopicRate>, table: map<string, real>)
    requires Lists(updates, table)
    ensures Stored(stored, updates) == stored + table
    decreases updates
  {
    if updates == [] {
      assert table == map[];
    } else {
      TailLists(updates, table);
      StoringIsMerging(stored[updates[0].topic := updates[0].rate], updates[1..], table - {updates[0].topic});
      ChangedSplits(stored, updates[0], table);
    }
  }

  /** Storing a sorted list of rates keeps exactly those that changed, still sorted. */
  lemma {:induction false} KeptAreChanged(stored: map<string, real>, updates: seq<TopicRate>, table: map<string, real>)
    requires Lists(updates, table)
    ensures Lists(Kept(stored, updates), Changed(stored, table))
    decreases updates
  {
    if updates != [] {
      var after, rest := stored[updates[0].topic := updates[0].rate], table - {updates[0].topic};
      TailLists(updates, table);
      KeptAreChanged(after, updates[1..], rest);
      ChangedSplits(stored, updates[0], table);
      KeptAreListed(after, updates[1..]);
      HeadIsLeast(updates, table);
      HeadKept(stored, updates[0], updates[1..], Kept(after, updates[1..]), table);
    } else {
      assert table == map[];
    }
  }

  /** What happens to the stored rates: a tick of new rates, or topics that went. */
  datatype Step = Tick(rates: map<string, real>) | Went(live: set<string>)

  ghost function StoredAfter(steps: seq<Step>): map<string, real> {
    if steps == [] then map[]
    else
      var before := StoredAfter(steps[..|steps| - 1]);
      match steps[|steps| - 1]
      case Tick(rates) => before + rates
      case Went(live) => Living(before, live)
  }

  /** A subscriber that only ever hears the rates that changed. */
  ghost function HeardAfter(steps: seq<Step>): map<string, real> {
    if steps == [] then map[]
    else
      var front := steps[..|steps| - 1];
      match steps[|steps| - 1]
      case Tick(rates) => HeardAfter(front) + Changed(StoredAfter(front), rates)
      case Went(_) => HeardAfter(front)
  }

  /** Publishing only changes loses nothing: a subscriber still knows the rate of every topic that lives. */
  lemma {:induction false} SubscriberKnowsEveryRate(steps: seq<Step>)
    ensures forall t | t in StoredAfter(steps) ::
              t in HeardAfter(steps) && HeardAfter(steps)[t] == StoredAfter(steps)[t]
    decreases |steps|
  {
    if steps != [] { SubscriberKnowsEveryRate(steps[..|steps| - 1]); }
  }
}
