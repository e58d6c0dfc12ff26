/** What a session's offset lookups answer, and the marks two of them make. */
module Session {
  import opened Wrappers

  type Offsets = map<string, map<int, int>>

  datatype Watermarks = Watermarks(low: int, high: int)

  type Marks = map<string, map<int, Watermarks>>

  function At<T>(table: map<string, map<int, T>>, topic: string, partition: int): Option<T> {
    if topic in table && partition in table[topic] then Some(table[topic][partition]) else None
  }

  /** What one lookup found, and the first failure Kafka answered for a partition. */
  datatype Lookup = Lookup(found: Offsets, failure: Option<string>) {
    /** The offsets, unless some partition went unanswered. */
    function Complete(): Result<Offsets, string> {
      match failure
      case Some(error) => Failure(error)
      case None => Success(found)
    }
  }

  /** Collects the answers of one lookup. */
  class OffsetLookup {
    var found: Offsets
    var failure: Option<string>

    constructor ()
      ensures Answers() == Lookup(map[], None)
    {
      found, failure := map[], None;
    }

    function Answers(): Lookup
      reads this
    {
      Lookup(found, failure)
    }

    method Insert(topic: string, partition: int, offset: int)
      modifies this
      ensures failure == old(failure)
      ensures forall t, p :: At(found, t, p)
                == if (t, p) == (topic, partition) then Some(offset) else At(old(found), t, p)
    {
      var partitions := if topic in found then found[topic] else map[];
      found := found[topic := partitions[partition := offset]];
    }

    /** Keeps the first failure, so later ones never hide it. */
    method Fail(error: string)
      modifies this
      ensures found == old(found)
      ensures Answers().Complete() == match old(Answers().Complete())
                case Failure(first) => Result.Failure(first)
                case Success(_) => Result.Failure(error)
    {
      if failure.None? { failure := Some(error); }
    }
  }

  // ---------------------------------------------------------------------- marks

  /** A partition with no low mark reads as empty; one whose marks are inverted is left out. */
  function Mark(low: Option<int>, high: int): Option<Watermarks> {
    var start := if low.Some? then low.value else high;
    if start <= high then Some(Watermarks(start, high)) else None
  }

  ghost function TopicMarks(lows: Offsets, topic: string, highs: map<int, int>): map<int, Watermarks> {
    map p | p in highs && Mark(At(lows, topic, p), highs[p]).Some? :: Mark(At(lows, topic, p), highs[p]).value
  }

  ghost function MergedTopics(lows: Offsets, highs: Offsets, topics: set<string>): Marks
    requires topics <= highs.Keys
  {
    map t | t in topics && TopicMarks(lows, t, highs[t]) != map[] :: TopicMarks(lows, t, highs[t])
  }

  ghost function Merged(lows: Offsets, highs: Offsets): Marks {
    MergedTopics(lows, highs, highs.Keys)
  }

  lemma MergedTopicsGrows(lows: Offsets, highs: Offsets, topics: set<string>, topic: string)
    requires topics <= highs.Keys && topic in highs && topic !in topics
    ensures var marks := TopicMarks(lows, topic, highs[topic]);
            MergedTopics(lows, highs, topics + {topic})
              == if marks == map[] then MergedTopics(lows, highs, topics)
                 else MergedTopics(lows, highs, topics)[topic := marks]
  {
  }

  method MergeTopic(lows: Offsets, topic: string, highs: map<int, int>) returns (marks: map<int, Watermarks>)
    ensures marks == TopicMarks(lows, topic, highs)
  {
    marks := map[];
    var left := highs.Keys;
    ghost var done: set<int> := {};
    while left != {}
      invariant left !! done && left + done == highs.Keys
      invariant marks == map p | p in done && Mark(At(lows, topic, p), highs[p]).Some? ::
                           Mark(At(lows, topic, p), highs[p]).value
    {
      assert (forall p :: p !in left) ==> left == {};
      var partition :| partition in left;
      left, done := left - {partition}, done + {partition};
      match Mark(At(lows, topic, partition), highs[partition])
      case Some(mark) => marks := marks[partition := mark];
      case None =>
    }
    assert done == highs.Keys;
  }

  method MergeWatermarks(lows: Offsets, highs: Offsets) returns (out: Marks)
    ensures out == Merged(lows, highs)
  {
    out := map[];
    var left := highs.Keys;
    ghost var done: set<string> := {};
    while left != {}
      invariant left !! done && left + done == highs.Keys
      invariant out == MergedTopics(lows, highs, done)
    {
      var topic :| topic in left;
      MergedTopicsGrows(lows, highs, done, topic);
      left, done := left - {topic}, done + {topic};
      var marks := MergeTopic(lows, topic, highs[topic]);
      if marks != map[] { out := out[topic := marks]; }
    }
    assert done == highs.Keys;
  }

  /** The marks a reader can rely on: never inverted, and no topic without one. */
  ghost predicate Ordered(marks: Marks) {
    && (forall t, p | t in marks && p in marks[t] :: marks[t][p].low <= marks[t][p].high)
    && (forall t | t in marks :: marks[t] != map[])
  }

  lemma MergedAt(lows: Offsets, highs: Offsets, topic: string, partition: int)
    ensures At(Merged(lows, highs), topic, partition) == match At(highs, topic, partition)
              case None => None
              case Some(high) =>
                match At(lows, topic, partition)
                case None => Some(Watermarks(high, high))
                case Some(low) => if low <= high then Some(Watermarks(low, high)) else None
  {
    if At(highs, topic, partition).Some? && Mark(At(lows, topic, partition), highs[topic][partition]).Some? {
      assert partition in TopicMarks(lows, topic, highs[topic]);
    }
  }

  /** Whatever the lookups answered, merging leaves no inverted range. */
  lemma MergedIsOrdered(lows: Offsets, highs: Offsets)
    ensures Ordered(Merged(lows, highs))
  {
    var marks: Marks := Merged(lows, highs);
    forall t: string, p: int | t in marks && p in marks[t] ensures marks[t][p].low <= marks[t][p].high {
      MergedAt(lows, highs, t, p);
    }
  }

  /** Ordered marks are told apart by their partitions alone. */
  lemma MarksAreTheirPartitions(left: Marks, right: Marks)
    requires Ordered(left) && Ordered(right)
    requires forall t, p :: At(left, t, p) == At(right, t, p)
    ensures left == right
  {
    forall t | t in left ensures t in right && left[t] == right[t] {
      SameTopic(left, right, t);
    }
    forall t | t in right ensures t in left {
      SameTopic(right, left, t);
    }
  }

  lemma HasPartition<T>(partitions: map<int, T>)
    ensures partitions == map[] || exists p :: p in partitions
  {
    if forall p :: p !in partitions { assert partitions == map[]; }
  }

  lemma SameTopic(left: Marks, right: Marks, t: string)
    requires t in left && left[t] != map[]
    requires forall p :: At(left, t, p) == At(right, t, p)
    ensures t in right && left[t] == right[t]
  {
    HasPartition(left[t]);
    var p :| p in left[t];
    assert At(left, t, p) == At(right, t, p);
    forall q ensures q in left[t] <==> q in right[t] {
      assert At(left, t, q) == At(right, t, q);
    }
    forall q | q in left[t] ensures left[t][q] == right[t][q] {
      assert At(left, t, q) == At(right, t, q);
    }
  }

  /** One kind of lookup, over whatever form the request takes. */
  type LookUp<!W> = W -> Result<Lookup, string>

  /** The marks of the partitions asked for, leaving out those Kafka failed to answer for. */
  ghost function WatermarksOf<W>(lows: LookUp<W>, highs: LookUp<W>, wanted: W): Result<Marks, string> {
    match lows(wanted)
    case Failure(error) => Failure(error)
    case Success(low) =>
      match highs(wanted)
      case Failure(error) => Failure(error)
      case Success(high) => Success(Merged(low.found, high.found))
  }

  /** The same, failing when Kafka failed to answer for any partition. */
  ghost function CompleteWatermarks<W>(lows: LookUp<W>, highs: LookUp<W>, wanted: W): Result<Marks, string> {
    match (lows(wanted), highs(wanted))
    case (Failure(error), _) => Failure(error)
    case (Success(_), Failure(error)) => Failure(error)
    case (Success(low), Success(high)) =>
      match (low.Complete(), high.Complete())
      case (Failure(error), _) => Failure(error)
      case (Success(_), Failure(error)) => Failure(error)
      case (Success(found), Success(tops)) => Success(Merged(found, tops))
  }

  method ReadCompleteWatermarks<W>(lows: LookUp<W>, highs: LookUp<W>, wanted: W)
    returns (marks: Result<Marks, string>)
    ensures marks == CompleteWatermarks(lows, highs, wanted)
  {
    var low, high := lows(wanted), highs(wanted);
    if low.Failure? { return Failure(low.error); }
    if high.Failure? { return Failure(high.error); }
    var found, tops := low.value.Complete(), high.value.Complete();
    if found.Failure? { return Failure(found.error); }
    if tops.Failure? { return Failure(tops.error); }
    var merged := MergeWatermarks(found.value, tops.value);
    marks := Success(merged);
  }

  /** The lookup failed with the error, as a whole or for some partition. */
  predicate FailsIn(lookup: Result<Lookup, string>, error: string) {
    match lookup
    case Failure(refused) => error == refused
    case Success(answered) => answered.failure == Some(error)
  }

  /** Marks come back complete exactly when no part of either lookup failed. */
  lemma CompleteExactlyWhenUnfailed<W>(lows: LookUp<W>, highs: LookUp<W>, wanted: W)
    ensures CompleteWatermarks(lows, highs, wanted).Success? <==>
              && lows(wanted).Success? && lows(wanted).value.failure.None?
              && highs(wanted).Success? && highs(wanted).value.failure.None?
    ensures CompleteWatermarks(lows, highs, wanted).Success? ==>
              CompleteWatermarks(lows, highs, wanted) == WatermarksOf(lows, highs, wanted)
              && Ordered(CompleteWatermarks(lows, highs, wanted).value)
    ensures CompleteWatermarks(lows, highs, wanted).Failure? ==>
              var error := CompleteWatermarks(lows, highs, wanted).error;
              FailsIn(lows(wanted), error) || FailsIn(highs(wanted), error)
  {
    if CompleteWatermarks(lows, highs, wanted).Success? {
      MergedIsOrdered(lows(wanted).value.found, highs(wanted).value.found);
    }
  }
}
