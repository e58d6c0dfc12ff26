/** Where a group's committed offsets move to, and the plan that moves them. */
module OffsetReset {
  import opened FixedWidth
  import opened Session
  import opened TopicOrder
  import opened Wrappers

  datatype ResetTarget = Earliest | Latest | Offset(offset: i64) | Shift(distance: i64) | Timestamp(at: i64)

  datatype Committed = Committed(topic: string, partition: int, offset: i64)

  datatype OffsetMove = OffsetMove(topic: string, partition: int, from: Option<i64>, to: int, end: int)

  datatype ResetError =
    | SessionFailed(error: string)
    | UnknownPartition(topic: string, partition: int)
    | NoCommittedOffset(topic: string, partition: int)

  // -------------------------------------------------------------------- placing

  function Clamp(value: int, low: int, high: int): int
    requires low <= high
  {
    if value < low then low else if value > high then high else value
  }

  function Place(to: ResetTarget, from: Option<i64>, marks: Watermarks, atTime: Option<int>): Option<int>
    requires marks.low <= marks.high
  {
    if to.Shift? && from.None? then None
    else
      var offset := match to
        case Earliest => marks.low
        case Latest => marks.high
        case Offset(offset) => offset
        case Shift(distance) => SaturatingAdd(from.value, distance)
        case Timestamp(_) => if atTime.Some? then atTime.value else marks.high;
      Some(Clamp(offset, marks.low, marks.high))
  }

  /** The offset asked for, were offsets unbounded. */
  function Target(to: ResetTarget, from: Option<i64>, marks: Watermarks, atTime: Option<int>): Option<int> {
    match to
    case Earliest => Some(marks.low)
    case Latest => Some(marks.high)
    case Offset(offset) => Some(offset)
    case Shift(distance) => if from.Some? then Some(from.value + distance) else None
    case Timestamp(_) => Some(if atTime.Some? then atTime.value else marks.high)
  }

  function Distance(a: int, b: int): nat {
    if a < b then b - a else a - b
  }

  ghost predicate IsNearest(offset: int, target: int, marks: Watermarks) {
    && marks.low <= offset <= marks.high
    && forall other | marks.low <= other <= marks.high :: Distance(offset, target) <= Distance(other, target)
  }

  /** Placing lands on the offset of the log nearest the unbounded target: saturation loses nothing. */
  lemma PlaceIsNearestToTarget(to: ResetTarget, from: Option<i64>, marks: Watermarks, atTime: Option<int>)
    requires I64_MIN <= marks.low <= marks.high <= I64_MAX
    ensures Place(to, from, marks, atTime).Some? <==> !(to.Shift? && from.None?)
    ensures Place(to, from, marks, atTime).Some? ==>
              && Target(to, from, marks, atTime).Some?
              && IsNearest(Place(to, from, marks, atTime).value, Target(to, from, marks, atTime).value, marks)
  {
  }

  // -------------------------------------------------------------------- planning

  type Wanted = map<string, seq<int>>

  type Times = map<string, map<int, Option<int>>>

  /** What the session answers for one reset. */
  datatype Answers = Answers(
    committed: Result<seq<Committed>, string>,
    lows: LookUp<Wanted>,
    highs: LookUp<Wanted>,
    offsetsForTimes: (string, seq<int>, int) -> Result<map<int, Option<int>>, string>)

  /** What every move is computed from once the session has answered. */
  datatype Facts = Facts(marks: Marks, times: Times, current: map<TopicPartition, i64>)

  function MoveOf(to: ResetTarget, facts: Facts, at: TopicPartition): Result<OffsetMove, ResetError>
    requires Ordered(facts.marks)
  {
    match At(facts.marks, at.topic, at.partition)
    case None => Failure(UnknownPartition(at.topic, at.partition))
    case Some(mark) =>
      var from := if at in facts.current then Some(facts.current[at]) else None;
      var time := At(facts.times, at.topic, at.partition);
      match Place(to, from, mark, if time.Some? then time.value else None)
      case None => Failure(NoCommittedOffset(at.topic, at.partition))
      case Some(offset) => Success(OffsetMove(at.topic, at.partition, from, offset, mark.high))
  }

  function MoveKey(m: OffsetMove): TopicPartition {
    TopicPartition(m.topic, m.partition)
  }

  predicate IsWanted(wanted: Wanted, at: TopicPartition) {
    at.topic in wanted && at.partition in wanted[at.topic]
  }

  /** The offset a list of commits holds for a partition: the last one listed. */
  function LastCommitted(committed: seq<Committed>, at: TopicPartition): Option<i64>
    decreases |committed|
  {
    if committed == [] then None
    else
      var last := committed[|committed| - 1];
      if TopicPartition(last.topic, last.partition) == at then Some(last.offset)
      else LastCommitted(committed[..|committed| - 1], at)
  }

  ghost predicate Records(current: map<TopicPartition, i64>, committed: seq<Committed>) {
    forall at :: (if at in current then Some(current[at]) else None) == LastCommitted(committed, at)
  }

  method CurrentOffsets(committed: seq<Committed>) returns (current: map<TopicPartition, i64>)
    ensures Records(current, committed)
  {
    current := map[];
    for i := 0 to |committed|
      invariant Records(current, committed[..i])
    {
      var commit := committed[i];
      current := current[TopicPartition(commit.topic, commit.partition) := commit.offset];
      assert committed[..i + 1][..i] == committed[..i];
    }
    assert committed[..|committed|] == committed;
  }

  /** The partitions a list of commits names on a topic, in the list's order. */
  function Partitions(committed: seq<Committed>, topic: string): seq<int>
    decreases |committed|
  {
    if committed == [] then []
    else
      var last := committed[|committed| - 1];
      Partitions(committed[..|committed| - 1], topic) + if last.topic == topic then [last.partition] else []
  }

  ghost function TopicsOf(committed: seq<Committed>): set<string>
    decreases |committed|
  {
    if committed == [] then {}
    else TopicsOf(committed[..|committed| - 1]) + {committed[|committed| - 1].topic}
  }

  /** The partitions to move: those asked for, or every one the group has committed. */
  ghost function WantedBy(committed: seq<Committed>, asked: Option<(string, seq<int>)>): Wanted {
    match asked
    case Some((topic, partitions)) => map[topic := partitions]
    case None => map t | t in TopicsOf(committed) :: Partitions(committed, t)
  }

  lemma WantedGrows(committed: seq<Committed>, last: Committed)
    ensures var before := WantedBy(committed, None);
            WantedBy(committed + [last], None) == before[last.topic :=
              (if last.topic in before then before[last.topic] else []) + [last.partition]]
  {
    assert (committed + [last])[..|committed|] == committed;
    if last.topic !in TopicsOf(committed) { UnnamedHasNone(committed, last.topic); }
    var before, after := WantedBy(committed, None), WantedBy(committed + [last], None);
    var listed := if last.topic in before then before[last.topic] else [];
    assert listed == Partitions(committed, last.topic);
    assert Partitions(committed + [last], last.topic) == listed + [last.partition];
    assert TopicsOf(committed + [last]) == TopicsOf(committed) + {last.topic};
    forall t | t in before && t != last.topic ensures after[t] == before[t] {
      assert Partitions(committed + [last], t) == Partitions(committed, t) + [];
    }
    assert after == before[last.topic := listed + [last.partition]];
  }

  lemma {:induction false} UnnamedHasNone(committed: seq<Committed>, topic: string)
    requires topic !in TopicsOf(committed)
    ensures Partitions(committed, topic) == []
    decreases |committed|
  {
    if committed != [] { UnnamedHasNone(committed[..|committed| - 1], topic); }
  }

  method CollectWanted(committed: seq<Committed>, asked: Option<(string, seq<int>)>) returns (wanted: Wanted)
    ensures wanted == WantedBy(committed, asked)
  {
    match asked
    case Some((topic, partitions)) => wanted := map[topic := partitions];
    case None =>
      wanted := map[];
      for i := 0 to |committed|
        invariant wanted == WantedBy(committed[..i], None)
      {
        var commit := committed[i];
        assert committed[..i + 1] == committed[..i] + [commit];
        WantedGrows(committed[..i], commit);
        var listed := if commit.topic in wanted then wanted[commit.topic] else [];
        wanted := wanted[commit.topic := listed + [commit.partition]];
      }
      assert committed[..|committed|] == committed;
  }

  ghost predicate TimesAnswered(answers: Answers, wanted: Wanted, timestamp: int) {
    forall t | t in wanted :: answers.offsetsForTimes(t, wanted[t], timestamp).Success?
  }

  ghost predicate TimesFailWith(answers: Answers, wanted: Wanted, timestamp: int, error: string) {
    exists t :: t in wanted && answers.offsetsForTimes(t, wanted[t], timestamp) == Failure(error)
  }

  ghost function TimesOf(answers: Answers, wanted: Wanted, timestamp: int): Times
    requires TimesAnswered(answers, wanted, timestamp)
  {
    map t | t in wanted :: answers.offsetsForTimes(t, wanted[t], timestamp).value
  }

  method OffsetsAt(answers: Answers, wanted: Wanted, timestamp: int) returns (found: Result<Times, string>)
    ensures found.Success? <==> TimesAnswered(answers, wanted, timestamp)
    ensures found.Success? ==> found.value == TimesOf(answers, wanted, timestamp)
    ensures found.Failure? ==> TimesFailWith(answers, wanted, timestamp, found.error)
  {
    var times: Times := map[];
    var left := wanted.Keys;
    while left != {}
      invariant left <= wanted.Keys
      invariant times.Keys == wanted.Keys - left
      invariant forall t | t in times :: answers.offsetsForTimes(t, wanted[t], timestamp) == Success(times[t])
    {
      var topic :| topic in left;
      match answers.offsetsForTimes(topic, wanted[topic], timestamp)
      case Failure(error) => return Failure(error);
      case Success(offsets) =>
        left := left - {topic};
        times := times[topic := offsets];
    }
    assert times.Keys == wanted.Keys;
    assert TimesAnswered(answers, wanted, timestamp) by {
      forall t | t in wanted ensures answers.offsetsForTimes(t, wanted[t], timestamp).Success? {
        assert t in times;
      }
    }
    found := Success(times);
  }

  // -------------------------------------------------------------- the moves made

  /** The moves are those of the partitions in `counts`, each as often as it is counted there. */
  ghost predicate Moves(moves: seq<OffsetMove>, to: ResetTarget, facts: Facts, counts: multiset<TopicPartition>)
    requires Ordered(facts.marks)
  {
    && (forall m | m in moves :: MoveKey(m) in counts && MoveOf(to, facts, MoveKey(m)) == Success(m))
    && (forall at | at in counts :: MoveOf(to, facts, at).Success?
          && multiset(moves)[MoveOf(to, facts, at).value] == counts[at])
  }

  lemma MovesGrow(
      moves: seq<OffsetMove>, to: ResetTarget, facts: Facts, counts: multiset<TopicPartition>, at: TopicPartition)
    requires Ordered(facts.marks) && Moves(moves, to, facts, counts) && MoveOf(to, facts, at).Success?
    ensures Moves(moves + [MoveOf(to, facts, at).value], to, facts, counts + multiset{at})
  {
    var m := MoveOf(to, facts, at).value;
    assert MoveKey(m) == at;
    assert at !in counts ==> m !in multiset(moves);
    assert multiset(moves + [m]) == multiset(moves) + multiset{m};
    forall other | other in counts + multiset{at}
      ensures MoveOf(to, facts, other).Success?
      ensures multiset(moves + [m])[MoveOf(to, facts, other).value] == (counts + multiset{at})[other]
    {
      if other != at { assert MoveKey(MoveOf(to, facts, other).value) == other; }
    }
  }

  ghost predicate Counts(counts: multiset<TopicPartition>, wanted: Wanted) {
    forall t, p :: counts[TopicPartition(t, p)] == if t in wanted then multiset(wanted[t])[p] else 0
  }

  lemma CountsGrow(counts: multiset<TopicPartition>, wanted: Wanted, topic: string, before: seq<int>, p: int)
    requires Counts(counts, wanted[topic := before])
    ensures Counts(counts + multiset{TopicPartition(topic, p)}, wanted[topic := before + [p]])
  {
    assert multiset(before + [p]) == multiset(before) + multiset{p};
    var was := wanted[topic := before];
    forall t: string, q: int ensures counts[TopicPartition(t, q)] == if t in was then multiset(was[t])[q] else 0 {
    }
  }

  ghost predicate MovedSoFar(
      moves: seq<OffsetMove>, to: ResetTarget, facts: Facts, wanted: Wanted, counts: multiset<TopicPartition>)
    requires Ordered(facts.marks)
  {
    Moves(moves, to, facts, counts) && Counts(counts, wanted)
  }

  lemma OneMoreMoved(
      moves: seq<OffsetMove>, to: ResetTarget, facts: Facts, wanted: Wanted, counts: multiset<TopicPartition>,
      topic: string, before: seq<int>, p: int)
    requires Ordered(facts.marks)
    requires MovedSoFar(moves, to, facts, wanted[topic := before], counts)
    requires MoveOf(to, facts, TopicPartition(topic, p)).Success?
    ensures MovedSoFar(moves + [MoveOf(to, facts, TopicPartition(topic, p)).value], to, facts,
                       wanted[topic := before + [p]], counts + multiset{TopicPartition(topic, p)})
  {
    MovesGrow(moves, to, facts, counts, TopicPartition(topic, p));
    CountsGrow(counts, wanted, topic, before, p);
  }

  lemma NextMoved(
      moves: seq<OffsetMove>, to: ResetTarget, facts: Facts, wanted: Wanted, counts: multiset<TopicPartition>,
      topic: string, partitions: seq<int>, i: nat)
    requires Ordered(facts.marks) && i < |partitions|
    requires MovedSoFar(moves, to, facts, wanted[topic := partitions[..i]], counts)
    requires MoveOf(to, facts, TopicPartition(topic, partitions[i])).Success?
    ensures MovedSoFar(moves + [MoveOf(to, facts, TopicPartition(topic, partitions[i])).value], to, facts,
                       wanted[topic := partitions[..i + 1]], counts + multiset{TopicPartition(topic, partitions[i])})
  {
    OneMoreMoved(moves, to, facts, wanted, counts, topic, partitions[..i], partitions[i]);
    ListsOneMore(wanted, topic, partitions, i);
  }

  lemma ListsOneMore(wanted: Wanted, topic: string, partitions: seq<int>, i: nat)
    requires i < |partitions|
    ensures wanted[topic := partitions[..i] + [partitions[i]]] == wanted[topic := partitions[..i + 1]]
  {
    assert partitions[..i] + [partitions[i]] == partitions[..i + 1];
  }

  lemma NoneMovedYet(
      moves: seq<OffsetMove>, to: ResetTarget, facts: Facts, wanted: Wanted, counts: multiset<TopicPartition>,
      topic: string)
    requires Ordered(facts.marks) && MovedSoFar(moves, to, facts, wanted, counts) && topic !in wanted
    ensures MovedSoFar(moves, to, facts, wanted[topic := []], counts)
  {
    forall t: string, p: int
      ensures counts[TopicPartition(t, p)] == if t in wanted then multiset(wanted[t])[p] else 0
    {
    }
  }

  /** Adds one topic's moves, or names a partition of it that cannot be moved. */
  method MoveTopic(
      to: ResetTarget, facts: Facts, topic: string, partitions: seq<int>, before: seq<OffsetMove>,
      ghost wanted: Wanted, ghost counted: multiset<TopicPartition>)
    returns (moves: Result<seq<OffsetMove>, ResetError>, ghost counts: multiset<TopicPartition>)
    requires Ordered(facts.marks) && MovedSoFar(before, to, facts, wanted, counted)
    requires topic !in wanted
    ensures match moves
      case Success(made) => MovedSoFar(made, to, facts, wanted[topic := partitions], counts)
      case Failure(error) =>
        exists p :: p in partitions && MoveOf(to, facts, TopicPartition(topic, p)) == Failure(error)
  {
    var made := before;
    counts := counted;
    NoneMovedYet(before, to, facts, wanted, counts, topic);
    assert partitions[..0] == [];
    for i := 0 to |partitions|
      invariant MovedSoFar(made, to, facts, wanted[topic := partitions[..i]], counts)
    {
      var at := TopicPartition(topic, partitions[i]);
      var next := MoveOf(to, facts, at);
      if next.Failure? {
        assert partitions[i] in partitions;
        return Failure(next.error), counts;
      }
      NextMoved(made, to, facts, wanted, counts, topic, partitions, i);
      made := made + [next.value];
      counts := counts + multiset{at};
    }
    assert partitions[..|partitions|] == partitions;
    moves := Success(made);
  }

  /** A plan: sorted, with every wanted partition's move exactly as often as it is wanted, and no other. */
  ghost predicate IsPlan(moves: seq<OffsetMove>, to: ResetTarget, facts: Facts, wanted: Wanted)
    requires Ordered(facts.marks)
  {
    && SortedBy(moves, MoveKey)
    && (forall m | m in moves :: IsWanted(wanted, MoveKey(m)) && MoveOf(to, facts, MoveKey(m)) == Success(m))
    && (forall at | IsWanted(wanted, at) :: MoveOf(to, facts, at).Success?
          && multiset(moves)[MoveOf(to, facts, at).value] == multiset(wanted[at.topic])[at.partition])
  }

  lemma SortedMovesArePlan(
      moves: seq<OffsetMove>, sorted: seq<OffsetMove>, to: ResetTarget, facts: Facts, wanted: Wanted,
      counts: multiset<TopicPartition>)
    requires Ordered(facts.marks) && Moves(moves, to, facts, counts) && Counts(counts, wanted)
    requires SortedBy(sorted, MoveKey) && multiset(sorted) == multiset(moves)
    ensures IsPlan(sorted, to, facts, wanted)
  {
    forall at: TopicPartition ensures at in counts <==> IsWanted(wanted, at) {
      assert counts[TopicPartition(at.topic, at.partition)]
          == if at.topic in wanted then multiset(wanted[at.topic])[at.partition] else 0;
    }
    forall m | m in sorted ensures m in moves {
      assert m in multiset(sorted);
    }
    forall at | IsWanted(wanted, at)
      ensures counts[at] == multiset(wanted[at.topic])[at.partition]
    {
      assert at == TopicPartition(at.topic, at.partition);
    }
  }

  method MoveAll(to: ResetTarget, facts: Facts, wanted: Wanted) returns (moves: Result<seq<OffsetMove>, ResetError>)
    requires Ordered(facts.marks)
    ensures match moves
      case Success(plan) => IsPlan(plan, to, facts, wanted)
      case Failure(error) => exists at :: IsWanted(wanted, at) && MoveOf(to, facts, at) == Failure(error)
  {
    var made: seq<OffsetMove> := [];
    var left := wanted.Keys;
    ghost var done: Wanted := map[];
    ghost var counts: multiset<TopicPartition> := multiset{};
    while left != {}
      invariant left !! done.Keys && left + done.Keys == wanted.Keys
      invariant forall t | t in done :: done[t] == wanted[t]
      invariant MovedSoFar(made, to, facts, done, counts)
      decreases left
    {
      var topic :| topic in left;
      var more, counted := MoveTopic(to, facts, topic, wanted[topic], made, done, counts);
      match more
      case Failure(error) =>
        ghost var p :| p in wanted[topic] && MoveOf(to, facts, TopicPartition(topic, p)) == Failure(error);
        assert IsWanted(wanted, TopicPartition(topic, p));
        return Failure(error);
      case Success(all) =>
        made, counts := all, counted;
        left, done := left - {topic}, done[topic := wanted[topic]];
    }
    assert done == wanted;
    var sorted := Sort(made, MoveKey);
    SortedMovesArePlan(made, sorted, to, facts, wanted, counts);
    moves := Success(sorted);
  }

  // -------------------------------------------------------------- the whole reset

  /** Every read the reset makes was answered in full. */
  ghost predicate Answered(answers: Answers, asked: Option<(string, seq<int>)>, to: ResetTarget) {
    && answers.committed.Success?
    && var wanted := WantedBy(answers.committed.value, asked);
       && CompleteWatermarks(answers.lows, answers.highs, wanted).Success?
       && (to.Timestamp? ==> TimesAnswered(answers, wanted, to.at))
  }

  /** The error is that of the first of the reset's reads that was not answered. */
  ghost predicate FailsWith(
      answers: Answers, asked: Option<(string, seq<int>)>, to: ResetTarget, error: string)
  {
    match answers.committed
    case Failure(refused) => error == refused
    case Success(committed) =>
      var wanted := WantedBy(committed, asked);
      match CompleteWatermarks(answers.lows, answers.highs, wanted)
      case Failure(refused) => error == refused
      case Success(_) => to.Timestamp? && TimesFailWith(answers, wanted, to.at, error)
  }

  ghost predicate AreFacts(facts: Facts, answers: Answers, asked: Option<(string, seq<int>)>, to: ResetTarget)
    requires Answered(answers, asked, to)
  {
    var wanted := WantedBy(answers.committed.value, asked);
    && facts.marks == CompleteWatermarks(answers.lows, answers.highs, wanted).value
    && facts.times == (if to.Timestamp? then TimesOf(answers, wanted, to.at) else map[])
    && Records(facts.current, answers.committed.value)
    && Ordered(facts.marks)
  }

  /** The commit of a partition that stands: the last one listed, if any is. */
  ghost predicate IsLastCommit(committed: seq<Committed>, at: TopicPartition, from: Option<i64>) {
    match from
    case None => forall c | c in committed :: !(c.topic == at.topic && c.partition == at.partition)
    case Some(offset) => exists i ::
      && 0 <= i < |committed| && committed[i] == Committed(at.topic, at.partition, offset)
      && forall j | i < j < |committed| ::
           !(committed[j].topic == at.topic && committed[j].partition == at.partition)
  }

  lemma {:induction false} LastCommittedIsLast(committed: seq<Committed>, at: TopicPartition)
    ensures IsLastCommit(committed, at, LastCommitted(committed, at))
    decreases |committed|
  {
    if committed != [] {
      var front, last := committed[..|committed| - 1], committed[|committed| - 1];
      assert committed == front + [last];
      if TopicPartition(last.topic, last.partition) == at {
        assert committed[|committed| - 1] == Committed(at.topic, at.partition, last.offset);
      } else {
        LastCommittedIsLast(front, at);
        var from := LastCommitted(front, at);
        if from.Some? {
          var i :| 0 <= i < |front| && front[i] == Committed(at.topic, at.partition, from.value)
            && forall j | i < j < |front| :: !(front[j].topic == at.topic && front[j].partition == at.partition);
          assert committed[i] == front[i];
        }
      }
    }
  }

  /** The marks are what the two lookups answered: no low mark reads as the high. */
  ghost predicate AnsweredMark(answers: Answers, wanted: Wanted, at: TopicPartition, mark: Watermarks) {
    && answers.lows(wanted).Success? && answers.highs(wanted).Success?
    && var low := At(answers.lows(wanted).value.found, at.topic, at.partition);
       && At(answers.highs(wanted).value.found, at.topic, at.partition) == Some(mark.high)
       && mark.low == (if low.Some? then low.value else mark.high)
       && mark.low <= mark.high
  }

  /** The offset answered for a partition at a time, or else the end of its log. */
  ghost predicate AnsweredTime(
      answers: Answers, wanted: Wanted, at: TopicPartition, timestamp: int, mark: Watermarks, target: int)
  {
    && at.topic in wanted && answers.offsetsForTimes(at.topic, wanted[at.topic], timestamp).Success?
    && var offsets := answers.offsetsForTimes(at.topic, wanted[at.topic], timestamp).value;
       target == if at.partition in offsets && offsets[at.partition].Some? then offsets[at.partition].value
                 else mark.high
  }

  /** Where a move has to land, from the answers alone. */
  ghost predicate Lands(
      m: OffsetMove, to: ResetTarget, answers: Answers, wanted: Wanted, mark: Watermarks)
    requires answers.committed.Success?
  {
    var at := TopicPartition(m.topic, m.partition);
    && AnsweredMark(answers, wanted, at, mark)
    && m.end == mark.high
    && IsLastCommit(answers.committed.value, at, m.from)
    && match to
       case Earliest => m.to == mark.low
       case Latest => m.to == mark.high
       case Offset(offset) => IsNearest(m.to, offset, mark)
       case Shift(distance) =>
         && m.from.Some?
         && (I64_MIN <= mark.low && mark.high <= I64_MAX ==> IsNearest(m.to, m.from.value + distance, mark))
       case Timestamp(timestamp) =>
         exists target :: AnsweredTime(answers, wanted, at, timestamp, mark, target) && IsNearest(m.to, target, mark)
  }

  lemma MarkIsAnswered(answers: Answers, wanted: Wanted, at: TopicPartition)
    requires CompleteWatermarks(answers.lows, answers.highs, wanted).Success?
    requires At(CompleteWatermarks(answers.lows, answers.highs, wanted).value, at.topic, at.partition).Some?
    ensures AnsweredMark(answers, wanted, at,
              At(CompleteWatermarks(answers.lows, answers.highs, wanted).value, at.topic, at.partition).value)
  {
    MergedAt(answers.lows(wanted).value.found, answers.highs(wanted).value.found, at.topic, at.partition);
  }

  /** Every move planned lands where its target says, from the commits, marks and times answered. */
  lemma MovesLand(
      m: OffsetMove, to: ResetTarget, answers: Answers, asked: Option<(string, seq<int>)>, facts: Facts)
    requires Answered(answers, asked, to) && AreFacts(facts, answers, asked, to)
    requires IsWanted(WantedBy(answers.committed.value, asked), MoveKey(m))
    requires MoveOf(to, facts, MoveKey(m)) == Success(m)
    ensures exists mark :: Lands(m, to, answers, WantedBy(answers.committed.value, asked), mark)
  {
    var wanted, at := WantedBy(answers.committed.value, asked), TopicPartition(m.topic, m.partition);
    var mark := At(facts.marks, m.topic, m.partition).value;
    MarkIsAnswered(answers, wanted, at);
    LastCommittedIsLast(answers.committed.value, at);
    assert m.from == LastCommitted(answers.committed.value, at);
    if to.Timestamp? {
      var offsets := facts.times[m.topic];
      var target := if m.partition in offsets && offsets[m.partition].Some? then offsets[m.partition].value
                    else mark.high;
      assert AnsweredTime(answers, wanted, at, to.at, mark, target);
      assert IsNearest(m.to, target, mark);
    }
    assert Lands(m, to, answers, wanted, mark);
  }

  /** Wanted are the partitions asked for, or else every one committed on. */
  lemma WantsExactly(committed: seq<Committed>, asked: Option<(string, seq<int>)>, at: TopicPartition)
    ensures IsWanted(WantedBy(committed, asked), at) <==>
              match asked
              case Some((topic, partitions)) => at.topic == topic && at.partition in partitions
              case None => exists c :: c in committed && c.topic == at.topic && c.partition == at.partition
  {
    if asked.None? { CommittedPartitions(committed, at); }
  }

  lemma {:induction false} CommittedPartitions(committed: seq<Committed>, at: TopicPartition)
    ensures at.partition in Partitions(committed, at.topic) <==>
              exists c :: c in committed && c.topic == at.topic && c.partition == at.partition
    ensures at.topic in TopicsOf(committed) <==> exists c :: c in committed && c.topic == at.topic
    decreases |committed|
  {
    if committed != [] {
      var front, last := committed[..|committed| - 1], committed[|committed| - 1];
      assert committed == front + [last];
      CommittedPartitions(front, at);
      assert forall c :: c in committed <==> c in front || c == last;
    }
  }

  method PlanReset(answers: Answers, asked: Option<(string, seq<int>)>, to: ResetTarget)
    returns (result: Result<seq<OffsetMove>, ResetError>)
    ensures match result
      case Failure(SessionFailed(error)) => !Answered(answers, asked, to) && FailsWith(answers, asked, to, error)
      case Failure(error) => Answered(answers, asked, to) && exists facts, at ::
        && AreFacts(facts, answers, asked, to)
        && IsWanted(WantedBy(answers.committed.value, asked), at)
        && MoveOf(to, facts, at) == Failure(error)
      case Success(moves) => Answered(answers, asked, to) && exists facts ::
        && AreFacts(facts, answers, asked, to)
        && IsPlan(moves, to, facts, WantedBy(answers.committed.value, asked))
    ensures result.Success? ==> answers.committed.Success? && forall m | m in result.value ::
              exists mark :: Lands(m, to, answers, WantedBy(answers.committed.value, asked), mark)
  {
    if answers.committed.Failure? { return Failure(SessionFailed(answers.committed.error)); }
    var committed := answers.committed.value;
    var wanted := CollectWanted(committed, asked);
    var marks := ReadCompleteWatermarks(answers.lows, answers.highs, wanted);
    if marks.Failure? { return Failure(SessionFailed(marks.error)); }
    CompleteExactlyWhenUnfailed(answers.lows, answers.highs, wanted);
    var times: Times := map[];
    if to.Timestamp? {
      var found := OffsetsAt(answers, wanted, to.at);
      if found.Failure? { return Failure(SessionFailed(found.error)); }
      times := found.value;
    }
    var current := CurrentOffsets(committed);
    var facts := Facts(marks.value, times, current);
    assert AreFacts(facts, answers, asked, to);
    var moves := MoveAll(to, facts, wanted);
    match moves
    case Success(plan) =>
      assert IsPlan(plan, to, facts, wanted);
      forall m | m in plan ensures exists mark :: Lands(m, to, answers, wanted, mark) {
        MovesLand(m, to, answers, asked, facts);
      }
      result := Success(plan);
    case Failure(error) =>
      ghost var at :| IsWanted(wanted, at) && MoveOf(to, facts, at) == Failure(error);
      result := Failure(error);
  }

  /** One partition can be moved exactly when it has marks and, for a shift, a commit. */
  lemma MovableExactlyWhen(to: ResetTarget, facts: Facts, at: TopicPartition)
    requires Ordered(facts.marks)
    ensures MoveOf(to, facts, at) == Failure(UnknownPartition(at.topic, at.partition)) <==>
              At(facts.marks, at.topic, at.partition).None?
    ensures MoveOf(to, facts, at) == Failure(NoCommittedOffset(at.topic, at.partition)) <==>
              At(facts.marks, at.topic, at.partition).Some? && to.Shift? && at !in facts.current
    ensures MoveOf(to, facts, at).Success? <==>
              At(facts.marks, at.topic, at.partition).Some? && (to.Shift? ==> at in facts.current)
    ensures MoveOf(to, facts, at).Success? ==>
              var m, mark := MoveOf(to, facts, at).value, facts.marks[at.topic][at.partition];
              && MoveKey(m) == at && mark.low <= m.to <= m.end == mark.high
              && m.from == if at in facts.current then Some(facts.current[at]) else None
  {
  }

  ghost predicate Distinct(wanted: Wanted) {
    forall t, i, j | t in wanted && 0 <= i < j < |wanted[t]| :: wanted[t][i] != wanted[t][j]
  }

  function Keys(moves: seq<OffsetMove>): (keys: seq<TopicPartition>)
    ensures |keys| == |moves| && forall i | 0 <= i < |moves| :: keys[i] == MoveKey(moves[i])
  {
    seq(|moves|, i requires 0 <= i < |moves| => MoveKey(moves[i]))
  }

  lemma {:induction false} DistinctCountsOnce(s: seq<int>, p: int)
    requires forall i, j | 0 <= i < j < |s| :: s[i] != s[j]
    ensures multiset(s)[p] <= 1
    decreases |s|
  {
    if s != [] {
      var front := s[..|s| - 1];
      DistinctCountsOnce(front, p);
      assert s == front + [s[|s| - 1]];
      assert multiset(s) == multiset(front) + multiset{s[|s| - 1]};
      if s[|s| - 1] == p { assert p !in front; }
    }
  }

  /** Two places of a list that hold the same row count it twice. */
  lemma CountedTwice<T>(s: seq<T>, i: nat, j: nat)
    requires i < j < |s| && s[i] == s[j]
    ensures multiset(s)[s[i]] >= 2
  {
    assert s == s[..j] + [s[j]] + s[j + 1..];
    assert s[i] in s[..j];
    assert multiset(s) == multiset(s[..j]) + multiset{s[j]} + multiset(s[j + 1..]);
  }

  lemma PlanPutsBefore(
      moves: seq<OffsetMove>, to: ResetTarget, facts: Facts, wanted: Wanted, i: nat, j: nat)
    requires Ordered(facts.marks) && IsPlan(moves, to, facts, wanted) && Distinct(wanted)
    requires i < j < |moves|
    ensures Below(MoveKey(moves[i]), MoveKey(moves[j]))
  {
    var at := MoveKey(moves[i]);
    assert moves[i] in moves && moves[j] in moves;
    if at == MoveKey(moves[j]) {
      CountedTwice(moves, i, j);
      DistinctCountsOnce(wanted[at.topic], at.partition);
    }
    assert Upto(MoveKey(moves[i]), MoveKey(moves[j]));
  }

  lemma PlanHasExactlyWanted(
      moves: seq<OffsetMove>, to: ResetTarget, facts: Facts, wanted: Wanted, at: TopicPartition)
    requires Ordered(facts.marks) && IsPlan(moves, to, facts, wanted)
    ensures at in Keys(moves) <==> IsWanted(wanted, at)
  {
    if IsWanted(wanted, at) {
      var m := MoveOf(to, facts, at).value;
      assert MoveKey(m) == at && m in multiset(moves);
      var i :| 0 <= i < |moves| && moves[i] == m;
      assert Keys(moves)[i] == at;
    }
    if at in Keys(moves) {
      var i :| 0 <= i < |moves| && Keys(moves)[i] == at;
      assert moves[i] in moves;
    }
  }

  /** Over distinct partitions a plan lists each wanted one exactly once, in order. */
  lemma PlanListsEachOnce(moves: seq<OffsetMove>, to: ResetTarget, facts: Facts, wanted: Wanted)
    requires Ordered(facts.marks) && IsPlan(moves, to, facts, wanted) && Distinct(wanted)
    ensures StrictlySorted(Keys(moves))
    ensures forall at :: at in Keys(moves) <==> IsWanted(wanted, at)
  {
    forall i, j | 0 <= i < j < |moves| ensures Below(MoveKey(moves[i]), MoveKey(moves[j])) {
      PlanPutsBefore(moves, to, facts, wanted, i, j);
    }
    forall at ensures at in Keys(moves) <==> IsWanted(wanted, at) {
      PlanHasExactlyWanted(moves, to, facts, wanted, at);
    }
  }

  /** So the order in which the tables of the plan are walked never shows in it. */
  lemma PlanIsUnique(left: seq<OffsetMove>, right: seq<OffsetMove>, to: ResetTarget, facts: Facts, wanted: Wanted)
    requires Ordered(facts.marks) && Distinct(wanted)
    requires IsPlan(left, to, facts, wanted) && IsPlan(right, to, facts, wanted)
    ensures left == right
  {
    PlanListsEachOnce(left, to, facts, wanted);
    PlanListsEachOnce(right, to, facts, wanted);
    StrictlySortedIsUnique(Keys(left), Keys(right));
    forall i | 0 <= i < |left| ensures left[i] == right[i] {
      assert left[i] in left && right[i] in right;
      assert Keys(left)[i] == Keys(right)[i];
    }
  }
}
