/**
 * The lane that keeps the watermark table: what a poll reads, when it commits,
 * and the topic rates each commit publishes.
 */
module Watermarking {
  import opened Rates
  import opened Session
  import opened SortedInts
  import opened WatermarkReads
  import opened Wrappers

  /** The lane's tuning, in seconds. */
  datatype Tuning = Tuning(lowInterval: real, idleHeartbeat: real, maxSampleGap: real)

  function Since(at: Option<real>, now: real): Option<real> {
    match at
    case Some(earlier) => Some(if now > earlier then now - earlier else 0.0)
    case None => None
  }

  predicate LowDue(tuning: Tuning, lowReadAt: Option<real>, now: real) {
    var since := Since(lowReadAt, now);
    since.None? || since.value >= tuning.lowInterval
  }

  /** The lows were read less than their interval ago. */
  predicate LowsAreFresh(tuning: Tuning, lowReadAt: Option<real>, now: real) {
    lowReadAt.Some? && 0.0 < tuning.lowInterval && now - lowReadAt.value < tuning.lowInterval
  }

  predicate IsDue(tuning: Tuning, table: Option<Marks>, committedAt: Option<real>, next: Marks, now: real) {
    var since := Since(committedAt, now);
    table.None? || table.value != next || since.None? || since.value >= tuning.idleHeartbeat
  }

  function SampleGap(tuning: Tuning, committedAt: Option<real>, now: real): (gap: Option<real>)
    ensures gap.Some? ==> gap.value > 0.0
  {
    var since := Since(committedAt, now);
    if since.Some? && 0.0 < since.value <= tuning.maxSampleGap then since else None
  }

  function BaselineFor(tuning: Tuning, table: Option<Marks>, committedAt: Option<real>, now: real)
    : (b: Option<Baseline>)
    ensures b.Some? ==> b.value.seconds > 0.0
  {
    var gap := SampleGap(tuning, committedAt, now);
    if table.Some? && gap.Some? then Some(Baseline(table.value, gap.value)) else None
  }

  /** What the rest of the server sees of the lane. */
  class Store {
    var table: Option<Marks>
    var failure: Option<string>
    var bus: seq<seq<TopicRate>>
    const rates: RateStore

    constructor ()
      ensures table == None && failure == None && bus == []
      ensures fresh(rates) && rates.topicRates == map[]
    {
      table, failure, bus := None, None, [];
      rates := new RateStore();
    }
  }

  /** The instants a poll looks at the clock, in the order it does. */
  datatype Clock = Clock(reading: real, comparing: real, publishing: real)

  class WatermarkLane {
    const tuning: Tuning
    var lowReadAt: Option<real>
    var committedAt: Option<real>

    constructor (tuning: Tuning)
      ensures this.tuning == tuning && lowReadAt == None && committedAt == None
    {
      this.tuning := tuning;
      lowReadAt, committedAt := None, None;
    }

    ghost function Fetched(
        previous: Option<Marks>, refresh: bool, now: real, lows: LookUp<Asked>, highs: LookUp<Asked>, wanted: Asked)
      : Result<Marks, string>
      reads this
    {
      if previous.Some? && !refresh && !LowDue(tuning, lowReadAt, now)
      then HighRead(previous.value, lows, highs, wanted)
      else WatermarksOf(lows, highs, wanted)
    }

    method Fetch(
        previous: Option<Marks>, refresh: bool, now: real, lows: LookUp<Asked>, highs: LookUp<Asked>, wanted: Asked)
      returns (fetched: Result<Marks, string>)
      modifies this`lowReadAt
      ensures fetched == old(Fetched(previous, refresh, now, lows, highs, wanted))
      ensures fetched ==
                (if previous.Some? && !refresh && LowsAreFresh(tuning, old(lowReadAt), now)
                 then HighRead(previous.value, lows, highs, wanted)
                 else WatermarksOf(lows, highs, wanted))
      ensures lowReadAt ==
                if fetched.Success? && !(previous.Some? && !refresh && LowsAreFresh(tuning, old(lowReadAt), now))
                then Some(now) else old(lowReadAt)
      ensures fetched.Success? ==>
                lowReadAt.Some? && (lowReadAt == Some(now) || now - lowReadAt.value < tuning.lowInterval)
    {
      if previous.Some? && !refresh && !LowDue(tuning, lowReadAt, now) {
        fetched := ReadHigh(previous.value, lows, highs, wanted);
      } else {
        fetched := ReadLowAndHigh(lows, highs, wanted);
        if fetched.Success? { lowReadAt := Some(now); }
      }
    }

    method Publish(store: Store, previous: Option<Marks>, next: Marks, now: real)
      modifies this`committedAt, store`bus, store.rates
      ensures committedAt == Some(now)
      ensures var rates := RatesOf(BaselineFor(tuning, previous, old(committedAt), now), next);
              && store.rates.topicRates == old(store.rates.topicRates) + rates
              && Announced(old(store.bus), store.bus, Changed(old(store.rates.topicRates), rates))
    {
      var baseline := BaselineFor(tuning, previous, committedAt, now);
      committedAt := Some(now);
      var rates := RatesBetween(baseline, next);
      ghost var stored := store.rates.topicRates;
      ghost var table := RatesOf(baseline, next);
      var kept := store.rates.KeepChanged(rates);
      StoringIsMerging(stored, rates, table);
      KeptAreChanged(stored, rates, table);
      EmptyListsNothing(kept, Changed(stored, table));
      if kept == [] { return; }
      store.bus := store.bus + [kept];
    }

    /**
     * One whole poll: ask for the partitions of the topology and of the groups' commits, fetch,
     * compare, and commit and publish only what changed or is due.
     */
    method Poll(
        store: Store, topics: map<string, seq<int>>, offsets: Option<Commits>, refresh: bool, clock: Clock,
        lows: LookUp<Asked>, highs: LookUp<Asked>)
      modifies this, store, store.rates
      ensures var wanted := WantedOf(topics, offsets);
              var fetched := old(Fetched(store.table, refresh, clock.reading, lows, highs, wanted));
              var was := State(old(store.table), old(committedAt));
              && State(store.table, committedAt) == After(tuning, was, Polled(fetched, clock))
              && store.failure == (if fetched.Failure? then Some(fetched.error) else None)
              && var rates := NewRates(tuning, was, Polled(fetched, clock));
                 && store.rates.topicRates == old(store.rates.topicRates) + rates
                 && Announced(old(store.bus), store.bus, Changed(old(store.rates.topicRates), rates))
    {
      var wanted := WantedPartitions(topics, offsets);
      var previous := store.table;
      var fetched := Fetch(previous, refresh, clock.reading, lows, highs, wanted);
      match fetched
      case Failure(error) =>
        store.failure := Some(error);
      case Success(next) =>
        if IsDue(tuning, previous, committedAt, next, clock.comparing) {
          store.table := Some(next);
          Publish(store, previous, next, clock.publishing);
        }
        store.failure := None;
    }
  }

  /** One tick is published when some rate changed, and none otherwise. */
  ghost predicate Announced(before: seq<seq<TopicRate>>, after: seq<seq<TopicRate>>, changed: map<string, real>) {
    if changed == map[] then after == before
    else |after| == |before| + 1 && after[..|before|] == before && Lists(after[|before|], changed)
  }

  lemma EmptyListsNothing(rates: seq<TopicRate>, table: map<string, real>)
    requires Lists(rates, table)
    ensures rates == [] <==> table == map[]
  {
    if rates != [] { assert rates[0] in rates; }
    if table != map[] {
      assert (forall t :: t !in table) ==> table.Keys == {};
      var t :| t in table;
      assert TopicRate(t, table[t]) in rates;
    }
  }

  // ------------------------------------------------------------------------ runs

  datatype State = State(table: Option<Marks>, committedAt: Option<real>)

  datatype Polled = Polled(fetched: Result<Marks, string>, clock: Clock)

  predicate Committing(tuning: Tuning, state: State, poll: Polled) {
    poll.fetched.Success?
    && IsDue(tuning, state.table, state.committedAt, poll.fetched.value, poll.clock.comparing)
  }

  function After(tuning: Tuning, state: State, poll: Polled): State {
    if Committing(tuning, state, poll) then State(Some(poll.fetched.value), Some(poll.clock.publishing)) else state
  }

  function PollBaseline(tuning: Tuning, state: State, poll: Polled): (b: Option<Baseline>)
    ensures b.Some? ==> b.value.seconds > 0.0
  {
    BaselineFor(tuning, state.table, state.committedAt, poll.clock.publishing)
  }

  ghost function NewRates(tuning: Tuning, state: State, poll: Polled): map<string, real> {
    if Committing(tuning, state, poll) then RatesOf(PollBaseline(tuning, state, poll), poll.fetched.value) else map[]
  }

  function StateAfter(tuning: Tuning, polls: seq<Polled>): State
    decreases |polls|
  {
    if polls == [] then State(None, None)
    else After(tuning, StateAfter(tuning, polls[..|polls| - 1]), polls[|polls| - 1])
  }

  function LastRead(polls: seq<Polled>): Option<Marks>
    decreases |polls|
  {
    if polls == [] then None
    else
      match polls[|polls| - 1].fetched
      case Success(marks) => Some(marks)
      case Failure(_) => LastRead(polls[..|polls| - 1])
  }

  /** The table held is always the last one read, though polls that change nothing commit nothing. */
  lemma {:induction false} TableIsLastRead(tuning: Tuning, polls: seq<Polled>)
    ensures StateAfter(tuning, polls).table == LastRead(polls)
    ensures StateAfter(tuning, polls).committedAt.Some? <==> LastRead(polls).Some?
    decreases |polls|
  {
    if polls != [] { TableIsLastRead(tuning, polls[..|polls| - 1]); }
  }

  /** When the table was last committed. */
  function LastCommit(tuning: Tuning, polls: seq<Polled>): Option<real>
    decreases |polls|
  {
    if polls == [] then None
    else
      var front, last := polls[..|polls| - 1], polls[|polls| - 1];
      if Committing(tuning, StateAfter(tuning, front), last) then Some(last.clock.publishing)
      else LastCommit(tuning, front)
  }

  lemma {:induction false} LastCommitIsRecorded(tuning: Tuning, polls: seq<Polled>)
    ensures LastCommit(tuning, polls) == StateAfter(tuning, polls).committedAt
    decreases |polls|
  {
    if polls != [] { LastCommitIsRecorded(tuning, polls[..|polls| - 1]); }
  }

  /**
   * A poll commits exactly when it read marks other than the last ones read, or the last commit
   * is a heartbeat old: a poll that reads the same marks within the heartbeat commits nothing.
   */
  lemma CommitsExactlyChangesAndHeartbeats(tuning: Tuning, polls: seq<Polled>)
    requires polls != []
    ensures var front, last := polls[..|polls| - 1], polls[|polls| - 1];
            var at := LastCommit(tuning, front);
            && (LastRead(front).Some? ==> at.Some?)
            && (Committing(tuning, StateAfter(tuning, front), last) <==>
                  last.fetched.Success?
                  && (LastRead(front) != Some(last.fetched.value)
                      || tuning.idleHeartbeat <= 0.0
                      || last.clock.comparing - at.value >= tuning.idleHeartbeat))
  {
    TableIsLastRead(tuning, polls[..|polls| - 1]);
    LastCommitIsRecorded(tuning, polls[..|polls| - 1]);
  }

  function FirstRead(polls: seq<Polled>): Option<Marks>
    decreases |polls|
  {
    if polls == [] then None
    else
      var front := FirstRead(polls[..|polls| - 1]);
      if front.Some? then front
      else match polls[|polls| - 1].fetched
        case Success(marks) => Some(marks)
        case Failure(_) => None
  }

  /** Every table read has the topic's same partitions, none of whose highs fell. */
  ghost predicate Steady(polls: seq<Polled>, topic: string)
    decreases |polls|
  {
    polls != [] ==>
      var front, fetched := polls[..|polls| - 1], polls[|polls| - 1].fetched;
      && Steady(front, topic)
      && (fetched.Success? ==>
            && topic in fetched.value
            && (LastRead(front).Some? ==>
                  topic in LastRead(front).value && Grows(LastRead(front).value[topic], fetched.value[topic])))
  }

  /** Every commit but the first comes a nonzero gap, within the sample limit, after the one before. */
  ghost predicate Sampled(tuning: Tuning, polls: seq<Polled>)
    decreases |polls|
  {
    polls != [] ==>
      var front, last := polls[..|polls| - 1], polls[|polls| - 1];
      var state := StateAfter(tuning, front);
      && Sampled(tuning, front)
      && (Committing(tuning, state, last) && state.committedAt.Some? ==>
            0.0 < last.clock.publishing - state.committedAt.value <= tuning.maxSampleGap)
  }

  /** What a rate comes to over a time. */
  function Over(rate: real, seconds: real): real {
    rate * seconds
  }

  /** There is a table before the poll's, committed a nonzero gap within the sample limit ago. */
  predicate HasGap(tuning: Tuning, state: State, poll: Polled) {
    && state.table.Some? && state.committedAt.Some?
    && 0.0 < Gap(state, poll) <= tuning.maxSampleGap
  }

  function Gap(state: State, poll: Polled): real
    requires state.committedAt.Some?
  {
    poll.clock.publishing - state.committedAt.value
  }

  /** What one commit's rate says the topic grew by over its gap. */
  ghost function Measured(tuning: Tuning, state: State, poll: Polled, topic: string): real {
    if Committing(tuning, state, poll) && HasGap(tuning, state, poll) && topic in poll.fetched.value
    then Over(UnroundedRate(PollBaseline(tuning, state, poll), topic, poll.fetched.value[topic]), Gap(state, poll))
    else 0.0
  }

  /** A commit with no gap to measure over publishes a rate of nothing for every topic. */
  lemma NoGapMeansNoRate(tuning: Tuning, state: State, poll: Polled, topic: string)
    requires !HasGap(tuning, state, poll) && topic in NewRates(tuning, state, poll)
    ensures NewRates(tuning, state, poll)[topic] == 0.0
  {
    assert RoundRate(0.0) == 0.0;
  }

  ghost function MeasuredOver(tuning: Tuning, polls: seq<Polled>, topic: string): real
    decreases |polls|
  {
    if polls == [] then 0.0
    else
      var front := polls[..|polls| - 1];
      MeasuredOver(tuning, front, topic) + Measured(tuning, StateAfter(tuning, front), polls[|polls| - 1], topic)
  }

  /** The same from the rates as published, rounded to a thousandth. */
  ghost function Published(tuning: Tuning, state: State, poll: Polled, topic: string): real {
    var rates := NewRates(tuning, state, poll);
    if topic in rates && HasGap(tuning, state, poll) then Over(rates[topic], Gap(state, poll)) else 0.0
  }

  ghost function PublishedOver(tuning: Tuning, polls: seq<Polled>, topic: string): real
    decreases |polls|
  {
    if polls == [] then 0.0
    else
      var front := polls[..|polls| - 1];
      PublishedOver(tuning, front, topic) + Published(tuning, StateAfter(tuning, front), polls[|polls| - 1], topic)
  }

  lemma RateTimesGap(produced: int, seconds: real)
    requires seconds > 0.0
    ensures Over(produced as real / seconds, seconds) == produced as real
  {
  }

  ghost function HighOf(marks: Option<Marks>, topic: string): int {
    if marks.Some? && topic in marks.value then TotalHigh(marks.value[topic]) else 0
  }

  /** What the topic grew by at a commit that has a table before it but no gap to measure over. */
  ghost function Lost(tuning: Tuning, state: State, poll: Polled, topic: string): real {
    if Committing(tuning, state, poll) && state.table.Some? && !HasGap(tuning, state, poll)
    then (HighOf(After(tuning, state, poll).table, topic) - HighOf(state.table, topic)) as real
    else 0.0
  }

  ghost function LostOver(tuning: Tuning, polls: seq<Polled>, topic: string): real
    decreases |polls|
  {
    if polls == [] then 0.0
    else
      var front := polls[..|polls| - 1];
      LostOver(tuning, front, topic) + Lost(tuning, StateAfter(tuning, front), polls[|polls| - 1], topic)
  }

  lemma {:induction false} SumsGrow(keys: set<int>, before: int -> int, after: int -> int)
    requires forall k | k in keys :: before(k) <= after(k)
    ensures Sum(keys, before) <= Sum(keys, after)
    decreases |keys|
  {
    if keys != {} { SumsGrow(keys - {Least(keys)}, before, after); }
  }

  lemma GrowthIsNotNegative(before: map<int, Watermarks>, after: map<int, Watermarks>)
    requires Grows(before, after)
    ensures TotalHigh(before) <= TotalHigh(after)
  {
    SumsGrow(after.Keys, p => if p in before then before[p].high else 0, p => if p in after then after[p].high else 0);
  }

  /** One poll either measures what the topic grew by or loses it, and never loses less than nothing. */
  lemma PollMeasuresOrLoses(tuning: Tuning, state: State, poll: Polled, topic: string)
    requires poll.fetched.Success? && topic in poll.fetched.value
    requires state.table.Some? && topic in state.table.value
    requires Grows(state.table.value[topic], poll.fetched.value[topic])
    ensures Measured(tuning, state, poll, topic) + Lost(tuning, state, poll, topic) ==
              (HighOf(After(tuning, state, poll).table, topic) - HighOf(state.table, topic)) as real
    ensures Lost(tuning, state, poll, topic) >= 0.0
  {
    if Committing(tuning, state, poll) {
      var partitions := poll.fetched.value[topic];
      GrowthIsNotNegative(state.table.value[topic], partitions);
      if HasGap(tuning, state, poll) {
        ProducedIsGrowth(state.table.value, topic, partitions);
        RateTimesGap(Produced(state.table.value, topic, partitions), Gap(state, poll));
      }
    }
  }

  /** One commit measures exactly how far the topic's highs rose since the table before it. */
  lemma CommitMeasuresGrowth(tuning: Tuning, state: State, poll: Polled, topic: string)
    requires poll.fetched.Success? && topic in poll.fetched.value
    requires state.table.Some? && state.committedAt.Some?
    requires topic in state.table.value && Grows(state.table.value[topic], poll.fetched.value[topic])
    requires Committing(tuning, state, poll) ==>
               0.0 < poll.clock.publishing - state.committedAt.value <= tuning.maxSampleGap
    ensures Measured(tuning, state, poll, topic) ==
              (HighOf(After(tuning, state, poll).table, topic) - HighOf(state.table, topic)) as real
  {
    PollMeasuresOrLoses(tuning, state, poll, topic);
  }

  /** Over a whole run what the rates measure and what is lost are together what the topic grew by. */
  lemma {:induction false} RatesAndLossesAreGrowth(tuning: Tuning, polls: seq<Polled>, topic: string)
    requires Steady(polls, topic)
    ensures MeasuredOver(tuning, polls, topic) + LostOver(tuning, polls, topic)
              == (HighOf(LastRead(polls), topic) - HighOf(FirstRead(polls), topic)) as real
    ensures LostOver(tuning, polls, topic) >= 0.0
    ensures LastRead(polls).Some? <==> FirstRead(polls).Some?
    ensures LastRead(polls).Some? ==> topic in LastRead(polls).value
    decreases |polls|
  {
    if polls != [] {
      var front, last := polls[..|polls| - 1], polls[|polls| - 1];
      var state := StateAfter(tuning, front);
      RatesAndLossesAreGrowth(tuning, front, topic);
      TableIsLastRead(tuning, front);
      TableIsLastRead(tuning, polls);
      if last.fetched.Success? && state.table.Some? { PollMeasuresOrLoses(tuning, state, last, topic); }
    }
  }

  /** No commit without a gap to measure over came when the topic had grown. */
  ghost predicate NothingLost(tuning: Tuning, polls: seq<Polled>, topic: string)
    decreases |polls|
  {
    polls != [] ==>
      var front, last := polls[..|polls| - 1], polls[|polls| - 1];
      var state := StateAfter(tuning, front);
      && NothingLost(tuning, front, topic)
      && (Committing(tuning, state, last) && state.table.Some? && !HasGap(tuning, state, last) ==>
            HighOf(Some(last.fetched.value), topic) == HighOf(state.table, topic))
  }

  /** The rates account for exactly what the topic grew by if and only if no such commit came. */
  lemma {:induction false} RatesAccountExactlyWhenNothingLost(tuning: Tuning, polls: seq<Polled>, topic: string)
    requires Steady(polls, topic)
    ensures MeasuredOver(tuning, polls, topic)
              == (HighOf(LastRead(polls), topic) - HighOf(FirstRead(polls), topic)) as real <==>
              NothingLost(tuning, polls, topic)
  {
    RatesAndLossesAreGrowth(tuning, polls, topic);
    LostExactlyWhen(tuning, polls, topic);
  }

  lemma {:induction false} LostExactlyWhen(tuning: Tuning, polls: seq<Polled>, topic: string)
    requires Steady(polls, topic)
    ensures LostOver(tuning, polls, topic) == 0.0 <==> NothingLost(tuning, polls, topic)
    decreases |polls|
  {
    if polls != [] {
      var front, last := polls[..|polls| - 1], polls[|polls| - 1];
      var state := StateAfter(tuning, front);
      LostExactlyWhen(tuning, front, topic);
      RatesAndLossesAreGrowth(tuning, front, topic);
      TableIsLastRead(tuning, front);
      if last.fetched.Success? && state.table.Some? { PollMeasuresOrLoses(tuning, state, last, topic); }
    }
  }

  /** Over a run of sampled commits the rates account for exactly what the topic grew by. */
  lemma RatesAccountForGrowth(tuning: Tuning, polls: seq<Polled>, topic: string)
    requires Steady(polls, topic) && Sampled(tuning, polls)
    ensures MeasuredOver(tuning, polls, topic)
              == (HighOf(LastRead(polls), topic) - HighOf(FirstRead(polls), topic)) as real
    ensures LastRead(polls).Some? <==> FirstRead(polls).Some?
    ensures LastRead(polls).Some? ==> topic in LastRead(polls).value
  {
    RatesAndLossesAreGrowth(tuning, polls, topic);
    SampledLosesNothing(tuning, polls, topic);
    RatesAccountExactlyWhenNothingLost(tuning, polls, topic);
  }

  lemma {:induction false} SampledLosesNothing(tuning: Tuning, polls: seq<Polled>, topic: string)
    requires Sampled(tuning, polls)
    ensures NothingLost(tuning, polls, topic)
    decreases |polls|
  {
    if polls != [] {
      SampledLosesNothing(tuning, polls[..|polls| - 1], topic);
      TableIsLastRead(tuning, polls[..|polls| - 1]);
    }
  }

  function HighMark(high: int): Marks {
    map["t" := map[0 := Watermarks(0, high)]]
  }

  lemma TotalOfHighMark(high: int)
    ensures HighOf(Some(HighMark(high)), "t") == high
  {
    var partitions := HighMark(high)["t"];
    assert partitions.Keys == {0} && {0} - {0} == {};
    assert Least({0}) == 0;
  }

  /** Under the default tuning, growth first seen sixteen seconds after the last commit is lost. */
  lemma LateGrowthIsLost()
    ensures var tuning := Tuning(30.0, 15.0, 15.0);
            var polls := [Polled(Success(HighMark(0)), Clock(0.0, 0.0, 0.0)),
                          Polled(Success(HighMark(7)), Clock(16.0, 16.0, 16.0))];
            && Steady(polls, "t") && !NothingLost(tuning, polls, "t")
            && MeasuredOver(tuning, polls, "t") == 0.0 && LostOver(tuning, polls, "t") == 7.0
  {
    var tuning := Tuning(30.0, 15.0, 15.0);
    var first := Polled(Success(HighMark(0)), Clock(0.0, 0.0, 0.0));
    var second := Polled(Success(HighMark(7)), Clock(16.0, 16.0, 16.0));
    var one, both := [first], [first, second];
    assert both[..|both| - 1] == one && one[..|one| - 1] == [];
    TotalOfHighMark(0);
    TotalOfHighMark(7);
    assert LastRead([]) == None && LastRead(one) == Some(HighMark(0));
    assert StateAfter(tuning, one) == State(Some(HighMark(0)), Some(0.0));
    assert HighMark(0)["t"].Keys == HighMark(7)["t"].Keys;
    assert Steady(one, "t");
    assert Steady(both, "t");
    assert HighMark(0)["t"][0].high != HighMark(7)["t"][0].high;
    assert Committing(tuning, StateAfter(tuning, one), second);
    LostExactlyWhen(tuning, both, "t");
  }

  // -------------------------------------------------------- a tuning that loses nothing

  /** The clock of the last poll that read a table. */
  function LastClock(polls: seq<Polled>): Option<Clock>
    decreases |polls|
  {
    if polls == [] then None
    else if polls[|polls| - 1].fetched.Success? then Some(polls[|polls| - 1].clock)
    else LastClock(polls[..|polls| - 1])
  }

  /** Each poll that reads a table publishes later than the one before it did, within `spacing` of its comparing. */
  ghost predicate Paced(polls: seq<Polled>, spacing: real)
    decreases |polls|
  {
    polls != [] ==>
      var front, last := polls[..|polls| - 1], polls[|polls| - 1];
      && Paced(front, spacing)
      && last.clock.comparing <= last.clock.publishing
      && (last.fetched.Success? && LastClock(front).Some? ==>
            && LastClock(front).value.publishing < last.clock.publishing
            && last.clock.publishing - LastClock(front).value.comparing <= spacing)
  }

  /** The last poll that read a table either committed it or came within a heartbeat of the last commit. */
  lemma {:induction false} CommitIsRecent(tuning: Tuning, polls: seq<Polled>, spacing: real)
    requires Paced(polls, spacing) && StateAfter(tuning, polls).committedAt.Some?
    ensures LastClock(polls).Some?
    ensures var at, clock := StateAfter(tuning, polls).committedAt.value, LastClock(polls).value;
            && clock.comparing <= clock.publishing && at <= clock.publishing
            && (at == clock.publishing || clock.comparing - at < tuning.idleHeartbeat)
    decreases |polls|
  {
    var front, last := polls[..|polls| - 1], polls[|polls| - 1];
    if !Committing(tuning, StateAfter(tuning, front), last) { CommitIsRecent(tuning, front, spacing); }
  }

  /** Where a heartbeat and the time between polls fit within the sample limit, every commit is sampled. */
  lemma {:induction false} PacedIsSampled(tuning: Tuning, polls: seq<Polled>, spacing: real)
    requires tuning.idleHeartbeat >= 0.0 && tuning.idleHeartbeat + spacing <= tuning.maxSampleGap
    requires Paced(polls, spacing)
    ensures Sampled(tuning, polls)
    decreases |polls|
  {
    if polls != [] {
      var front := polls[..|polls| - 1];
      PacedIsSampled(tuning, front, spacing);
      if StateAfter(tuning, front).committedAt.Some? { CommitIsRecent(tuning, front, spacing); }
    }
  }

  /** The time between the first commit of a run and its last. */
  function FirstCommit(tuning: Tuning, polls: seq<Polled>): Option<real>
    decreases |polls|
  {
    if polls == [] then None
    else
      var front := FirstCommit(tuning, polls[..|polls| - 1]);
      if front.Some? then front else StateAfter(tuning, polls).committedAt
  }

  ghost predicate Near(published: real, measured: real, seconds: real) {
    -0.0005 * seconds <= published - measured <= 0.0005 * seconds
  }

  lemma RoundingCosts(rate: real, seconds: real)
    requires seconds > 0.0
    ensures Near(Over(RoundRate(rate), seconds), Over(rate, seconds), seconds)
  {
    RoundsWithinHalfAThousandth(rate);
    var off := RoundRate(rate) - rate;
    assert RoundRate(rate) * seconds - rate * seconds == off * seconds;
    ScaledBound(off, seconds);
  }

  lemma ScaledBound(off: real, seconds: real)
    requires seconds > 0.0 && -0.0005 <= off <= 0.0005
    ensures -0.0005 * seconds <= off * seconds <= 0.0005 * seconds
  {
  }

  ghost function Elapsed(tuning: Tuning, polls: seq<Polled>): real {
    var first, last := FirstCommit(tuning, polls), StateAfter(tuning, polls).committedAt;
    if first.Some? && last.Some? then last.value - first.value else 0.0
  }

  lemma RateIsNear(tuning: Tuning, state: State, poll: Polled, topic: string)
    requires Committing(tuning, state, poll) && topic in poll.fetched.value
    requires HasGap(tuning, state, poll)
    ensures Near(Published(tuning, state, poll, topic), Measured(tuning, state, poll, topic), Gap(state, poll))
  {
    var baseline, next := PollBaseline(tuning, state, poll), poll.fetched.value;
    RatesNear(baseline, next, topic);
  }

  lemma RatesNear(baseline: Option<Baseline>, next: Marks, topic: string)
    requires baseline.Some? && baseline.value.seconds > 0.0 && topic in next
    ensures Near(Over(RatesOf(baseline, next)[topic], baseline.value.seconds),
                 Over(UnroundedRate(baseline, topic, next[topic]), baseline.value.seconds), baseline.value.seconds)
  {
    var rate := UnroundedRate(baseline, topic, next[topic]);
    RoundingCosts(rate, baseline.value.seconds);
    assert RatesOf(baseline, next)[topic] == RoundRate(rate);
  }

  lemma CommitPublishesNear(tuning: Tuning, state: State, poll: Polled, topic: string)
    requires state.committedAt.Some?
    requires Committing(tuning, state, poll) ==>
               0.0 < poll.clock.publishing - state.committedAt.value <= tuning.maxSampleGap
    ensures Near(Published(tuning, state, poll, topic), Measured(tuning, state, poll, topic),
                 After(tuning, state, poll).committedAt.value - state.committedAt.value)
  {
    if Committing(tuning, state, poll) && HasGap(tuning, state, poll) && topic in poll.fetched.value {
      RateIsNear(tuning, state, poll, topic);
    } else {
      assert Published(tuning, state, poll, topic) == 0.0 == Measured(tuning, state, poll, topic);
    }
  }

  /** Rounding each rate loses at most half a thousandth a second of the run. */
  lemma {:induction false} PublishedRatesStayNear(tuning: Tuning, polls: seq<Polled>, topic: string)
    requires Sampled(tuning, polls)
    ensures FirstCommit(tuning, polls).Some? <==> StateAfter(tuning, polls).committedAt.Some?
    ensures Near(PublishedOver(tuning, polls, topic), MeasuredOver(tuning, polls, topic), Elapsed(tuning, polls))
    decreases |polls|
  {
    if polls != [] {
      var front, last := polls[..|polls| - 1], polls[|polls| - 1];
      var state := StateAfter(tuning, front);
      PublishedRatesStayNear(tuning, front, topic);
      if state.committedAt.Some? { CommitPublishesNear(tuning, state, last, topic); }
    }
  }
}
