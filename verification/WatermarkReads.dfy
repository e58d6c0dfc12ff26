/**
 * Reading watermarks: the full read, and the cheaper one that reads only the
 * highs and takes over the low marks it holds.
 */
module WatermarkReads {
  import opened Session
  import opened TopicOrder
  import opened Wrappers

  /** The partitions a read asks for. */
  type Asked = map<string, set<int>>

  function Elements(s: seq<int>): set<int> {
    set x | x in s
  }

  predicate IsAsked(asked: Asked, topic: string, partition: int) {
    topic in asked && partition in asked[topic]
  }

  /** The committed offsets of every group, as the partitions they are on. */
  type Commits = map<string, seq<TopicPartition>>

  ghost function CommittedOn(commits: Commits, groups: set<string>): set<TopicPartition>
    requires groups <= commits.Keys
  {
    set g, p | g in groups && p in commits[g] :: p
  }

  ghost function TopicsOf(committed: set<TopicPartition>): set<string> {
    set c | c in committed :: c.topic
  }

  ghost function PartitionsOn(committed: set<TopicPartition>, topic: string): set<int> {
    set c | c in committed && c.topic == topic :: c.partition
  }

  function Listed(topics: map<string, seq<int>>, topic: string): set<int> {
    if topic in topics then Elements(topics[topic]) else {}
  }

  /** What is asked for when these partitions are added to those of the known topics. */
  ghost function AskedOf(topics: map<string, seq<int>>, committed: set<TopicPartition>): Asked {
    map t | t in topics.Keys + TopicsOf(committed) :: Listed(topics, t) + PartitionsOn(committed, t)
  }

  ghost function WantedOf(topics: map<string, seq<int>>, offsets: Option<Commits>): Asked {
    AskedOf(topics, if offsets.Some? then CommittedOn(offsets.value, offsets.value.Keys) else {})
  }

  function AskedAt(asked: Asked, topic: string): set<int> {
    if topic in asked then asked[topic] else {}
  }

  lemma CommittedOneMore(committed: set<TopicPartition>, p: TopicPartition, topic: string)
    ensures TopicsOf(committed + {p}) == TopicsOf(committed) + {p.topic}
    ensures PartitionsOn(committed + {p}, topic)
              == PartitionsOn(committed, topic) + if topic == p.topic then {p.partition} else {}
    ensures topic !in TopicsOf(committed) ==> PartitionsOn(committed, topic) == {}
  {
  }

  lemma AskedOfAt(topics: map<string, seq<int>>, committed: set<TopicPartition>, t: string)
    ensures AskedAt(AskedOf(topics, committed), t) == Listed(topics, t) + PartitionsOn(committed, t)
    ensures t in AskedOf(topics, committed) <==> t in topics || t in TopicsOf(committed)
  {
    if t !in TopicsOf(committed) {
      assert PartitionsOn(committed, t) == {};
    }
  }

  lemma SameAsked(left: Asked, right: Asked)
    requires forall t :: t in left <==> t in right
    requires forall t :: AskedAt(left, t) == AskedAt(right, t)
    ensures left == right
  {
    forall t | t in left ensures left[t] == right[t] {
      assert AskedAt(left, t) == AskedAt(right, t);
    }
  }

  lemma AskedOfOneMoreAt(topics: map<string, seq<int>>, committed: set<TopicPartition>, p: TopicPartition, t: string)
    ensures var before, after := AskedOf(topics, committed), AskedOf(topics, committed + {p});
            && (t in after <==> t in before || t == p.topic)
            && AskedAt(after, t) == AskedAt(before, t) + if t == p.topic then {p.partition} else {}
  {
    AskedOfAt(topics, committed, t);
    AskedOfAt(topics, committed + {p}, t);
    CommittedOneMore(committed, p, t);
  }

  lemma AskedOfOneMore(topics: map<string, seq<int>>, committed: set<TopicPartition>, p: TopicPartition)
    ensures var before := AskedOf(topics, committed);
            AskedOf(topics, committed + {p}) == before[p.topic := AskedAt(before, p.topic) + {p.partition}]
  {
    var before, after := AskedOf(topics, committed), AskedOf(topics, committed + {p});
    var added := before[p.topic := AskedAt(before, p.topic) + {p.partition}];
    forall t ensures (t in after <==> t in added) && AskedAt(after, t) == AskedAt(added, t) {
      AskedOfOneMoreAt(topics, committed, p, t);
    }
    SameAsked(after, added);
  }

  /** A partition is asked for exactly when its topic has it or some group committed on it. */
  lemma AsksExactlyTheWanted(topics: map<string, seq<int>>, offsets: Option<Commits>, t: string, p: int)
    ensures IsAsked(WantedOf(topics, offsets), t, p) <==>
              || (t in topics && p in topics[t])
              || (offsets.Some? && exists g :: g in offsets.value && TopicPartition(t, p) in offsets.value[g])
    ensures t in topics ==> t in WantedOf(topics, offsets)
  {
    var committed := if offsets.Some? then CommittedOn(offsets.value, offsets.value.Keys) else {};
    assert p in PartitionsOn(committed, t) <==> TopicPartition(t, p) in committed by {
      if c :| c in committed && c.topic == t && c.partition == p { assert c == TopicPartition(t, p); }
      if TopicPartition(t, p) in committed { assert TopicPartition(t, p).topic == t; }
    }
    assert p in PartitionsOn(committed, t) ==> t in TopicsOf(committed);
  }

  /** Every partition of a known topic, and every one some group has a commit on. */
  method WantedPartitions(topics: map<string, seq<int>>, offsets: Option<Commits>) returns (wanted: Asked)
    ensures wanted == WantedOf(topics, offsets)
  {
    wanted := map t | t in topics :: Elements(topics[t]);
    TopicsAloneAsked(topics);
    if offsets.Some? { wanted := AddCommitted(topics, wanted, offsets.value); }
  }

  lemma TopicsAloneAsked(topics: map<string, seq<int>>)
    ensures AskedOf(topics, {}) == map t | t in topics :: Elements(topics[t])
  {
    forall t | t in topics ensures Elements(topics[t]) == Listed(topics, t) + PartitionsOn({}, t) {
    }
    assert TopicsOf({}) == {};
  }

  method AddCommitted(ghost topics: map<string, seq<int>>, before: Asked, commits: Commits) returns (wanted: Asked)
    requires before == AskedOf(topics, {})
    ensures wanted == AskedOf(topics, CommittedOn(commits, commits.Keys))
  {
    wanted := before;
    var left := commits.Keys;
    ghost var done: set<string> := {};
    assert CommittedOn(commits, {}) == {};
    while left != {}
      invariant left !! done && left + done == commits.Keys
      invariant wanted == AskedOf(topics, CommittedOn(commits, done))
      decreases left
    {
      var group :| group in left;
      GroupsOneMore(commits, done, group);
      wanted := AskedFor(topics, CommittedOn(commits, done), wanted, commits[group]);
      left, done := left - {group}, done + {group};
    }
    assert done == commits.Keys;
  }

  function Spots(partitions: seq<TopicPartition>): set<TopicPartition> {
    set p | p in partitions
  }

  lemma GroupsOneMore(commits: Commits, groups: set<string>, group: string)
    requires groups <= commits.Keys && group in commits
    ensures CommittedOn(commits, groups + {group}) == CommittedOn(commits, groups) + Spots(commits[group])
  {
  }

  lemma SpotsOneMore(committed: set<TopicPartition>, partitions: seq<TopicPartition>, i: nat)
    requires i < |partitions|
    ensures committed + Spots(partitions[..i + 1]) == committed + Spots(partitions[..i]) + {partitions[i]}
  {
    assert partitions[..i + 1] == partitions[..i] + [partitions[i]];
  }

  method AskedFor(
      ghost topics: map<string, seq<int>>, ghost committed: set<TopicPartition>, before: Asked,
      partitions: seq<TopicPartition>)
    returns (wanted: Asked)
    requires before == AskedOf(topics, committed)
    ensures wanted == AskedOf(topics, committed + Spots(partitions))
  {
    wanted := before;
    assert committed + Spots(partitions[..0]) == committed;
    for i := 0 to |partitions|
      invariant wanted == AskedOf(topics, committed + Spots(partitions[..i]))
    {
      var TopicPartition(topic, partition) := partitions[i];
      AskedOfOneMore(topics, committed + Spots(partitions[..i]), partitions[i]);
      SpotsOneMore(committed, partitions, i);
      wanted := wanted[topic := AskedAt(wanted, topic) + {partition}];
    }
    assert partitions[..|partitions|] == partitions;
  }

  // ------------------------------------------------------------ the high-only read

  /** The low mark held for a partition, unless the high just read is below it. */
  function CachedLow(previous: Marks, topic: string, partition: int, high: int): Option<int> {
    match At(previous, topic, partition)
    case Some(cached) => if cached.low <= high then Some(cached.low) else None
    case None => None
  }

  ghost function KnownLows(previous: Marks, topic: string, highs: map<int, int>): map<int, int> {
    map p | p in highs && CachedLow(previous, topic, p, highs[p]).Some? :: CachedLow(previous, topic, p, highs[p]).value
  }

  ghost function MissingLows(previous: Marks, topic: string, highs: map<int, int>): set<int> {
    set p | p in highs && CachedLow(previous, topic, p, highs[p]).None?
  }

  ghost function Known(previous: Marks, highs: Offsets, topics: set<string>): Offsets
    requires topics <= highs.Keys
  {
    map t | t in topics :: KnownLows(previous, t, highs[t])
  }

  ghost function Uncached(previous: Marks, highs: Offsets, topics: set<string>): Asked
    requires topics <= highs.Keys
  {
    map t | t in topics && MissingLows(previous, t, highs[t]) != {} :: MissingLows(previous, t, highs[t])
  }

  lemma UncachedGrows(previous: Marks, highs: Offsets, topics: set<string>, topic: string)
    requires topics <= highs.Keys && topic in highs && topic !in topics
    ensures var missing, before := MissingLows(previous, topic, highs[topic]), Uncached(previous, highs, topics);
            Uncached(previous, highs, topics + {topic}) == if missing == {} then before else before[topic := missing]
    ensures Known(previous, highs, topics + {topic})
              == Known(previous, highs, topics)[topic := KnownLows(previous, topic, highs[topic])]
  {
  }

  function LowsOf(lows: Offsets, topic: string): map<int, int> {
    if topic in lows then lows[topic] else map[]
  }

  function Extended(lows: Offsets, topic: string, more: map<int, int>): Offsets {
    lows[topic := LowsOf(lows, topic) + more]
  }

  /** The lows with what was found for some of the topics laid over them. */
  ghost function ExtendedOver(lows: Offsets, found: Offsets, topics: set<string>): Offsets {
    map t | t in lows.Keys + topics :: LowsOf(lows, t) + if t in topics then LowsOf(found, t) else map[]
  }

  ghost function ExtendedBy(lows: Offsets, found: Offsets): Offsets {
    ExtendedOver(lows, found, found.Keys)
  }

  lemma ExtendedOneMore(lows: Offsets, found: Offsets, topics: set<string>, topic: string)
    requires topic in found && topic !in topics
    ensures ExtendedOver(lows, found, topics + {topic})
              == Extended(ExtendedOver(lows, found, topics), topic, found[topic])
  {
    var before, after := ExtendedOver(lows, found, topics), ExtendedOver(lows, found, topics + {topic});
    assert LowsOf(before, topic) == LowsOf(lows, topic) + map[] == LowsOf(lows, topic);
    assert after[topic] == LowsOf(before, topic) + found[topic];
  }

  lemma ExtendedOverNone(lows: Offsets, found: Offsets)
    ensures ExtendedOver(lows, found, {}) == lows
  {
    forall t | t in lows ensures ExtendedOver(lows, found, {})[t] == lows[t] {
      assert lows[t] + map[] == lows[t];
    }
  }

  ghost function HighRead(previous: Marks, lows: LookUp<Asked>, highs: LookUp<Asked>, wanted: Asked)
    : Result<Marks, string>
  {
    match highs(wanted)
    case Failure(error) => Failure(error)
    case Success(high) =>
      var known := Known(previous, high.found, high.found.Keys);
      var uncached := Uncached(previous, high.found, high.found.Keys);
      if uncached == map[] then Success(Merged(known, high.found))
      else match lows(uncached)
        case Failure(error) => Failure(error)
        case Success(low) => Success(Merged(ExtendedBy(known, low.found), high.found))
  }

  method SplitTopic(previous: Marks, topic: string, highs: map<int, int>)
    returns (known: map<int, int>, missing: set<int>)
    ensures known == KnownLows(previous, topic, highs)
    ensures missing == MissingLows(previous, topic, highs)
  {
    known, missing := map[], {};
    var left := highs.Keys;
    ghost var done: set<int> := {};
    while left != {}
      invariant left !! done && left + done == highs.Keys
      invariant known == map p | p in done && CachedLow(previous, topic, p, highs[p]).Some? ::
                           CachedLow(previous, topic, p, highs[p]).value
      invariant missing == set p | p in done && CachedLow(previous, topic, p, highs[p]).None?
      decreases left
    {
      assert (forall p :: p !in left) ==> left == {};
      var partition :| partition in left;
      left, done := left - {partition}, done + {partition};
      match CachedLow(previous, topic, partition, highs[partition])
      case Some(low) => known := known[partition := low];
      case None => missing := missing + {partition};
    }
    assert done == highs.Keys;
  }

  method Extend(known: Offsets, found: Offsets) returns (lows: Offsets)
    ensures lows == ExtendedBy(known, found)
  {
    lows := known;
    var left := found.Keys;
    ghost var done: set<string> := {};
    ExtendedOverNone(known, found);
    while left != {}
      invariant left !! done && left + done == found.Keys
      invariant lows == ExtendedOver(known, found, done)
      decreases left
    {
      var topic :| topic in left;
      ExtendedOneMore(known, found, done, topic);
      lows := Extended(lows, topic, found[topic]);
      left, done := left - {topic}, done + {topic};
    }
    assert done == found.Keys;
  }

  method ReadHigh(previous: Marks, lowLookUp: LookUp<Asked>, highLookUp: LookUp<Asked>, wanted: Asked)
    returns (result: Result<Marks, string>)
    ensures result == HighRead(previous, lowLookUp, highLookUp, wanted)
  {
    var answer := highLookUp(wanted);
    if answer.Failure? { return Failure(answer.error); }
    var highs := answer.value.found;
    var lows: Offsets, uncached: Asked := map[], map[];
    var left := highs.Keys;
    ghost var done: set<string> := {};
    while left != {}
      invariant left !! done && left + done == highs.Keys
      invariant lows == Known(previous, highs, done) && uncached == Uncached(previous, highs, done)
      decreases left
    {
      var topic :| topic in left;
      UncachedGrows(previous, highs, done, topic);
      var known, missing := SplitTopic(previous, topic, highs[topic]);
      if missing != {} { uncached := uncached[topic := missing]; }
      lows := lows[topic := known];
      left, done := left - {topic}, done + {topic};
    }
    assert done == highs.Keys;
    if uncached != map[] {
      var more := lowLookUp(uncached);
      if more.Failure? { return Failure(more.error); }
      lows := Extend(lows, more.value.found);
    }
    var marks := MergeWatermarks(lows, highs);
    result := Success(marks);
  }

  method ReadLowAndHigh(lowLookUp: LookUp<Asked>, highLookUp: LookUp<Asked>, wanted: Asked)
    returns (result: Result<Marks, string>)
    ensures result == WatermarksOf(lowLookUp, highLookUp, wanted)
  {
    var lows, highs := lowLookUp(wanted), highLookUp(wanted);
    if lows.Failure? { return Failure(lows.error); }
    if highs.Failure? { return Failure(highs.error); }
    var marks := MergeWatermarks(lows.value.found, highs.value.found);
    result := Success(marks);
  }

  // --------------------------------------------------------------- the two agree

  /** The lookup answers every partition it is asked for with the start of its log. */
  ghost predicate AnswersStarts(lows: LookUp<Asked>, start: (string, int) -> int) {
    forall asked :: lows(asked).Success? && FindsStarts(lows(asked).value.found, asked, start)
  }

  ghost predicate FindsStarts(found: Offsets, asked: Asked, start: (string, int) -> int) {
    forall t, p :: At(found, t, p) == if IsAsked(asked, t, p) then Some(start(t, p)) else None
  }

  /** The low mark the cheaper read takes over for a partition still starts its log. */
  predicate IsCurrent(previous: Marks, highs: Offsets, start: (string, int) -> int, t: string, p: int) {
    var high, held := At(highs, t, p), At(previous, t, p);
    high.Some? && held.Some? && held.value.low <= high.value ==> held.value.low == start(t, p)
  }

  ghost predicate CacheIsCurrent(previous: Marks, highs: Offsets, start: (string, int) -> int) {
    forall t, p :: IsCurrent(previous, highs, start, t, p)
  }

  /** The low mark the cheaper read uses: the one it holds, or else the one it looked up. */
  lemma HighReadAt(previous: Marks, lows: LookUp<Asked>, highs: LookUp<Asked>, wanted: Asked,
      start: (string, int) -> int, t: string, p: int)
    requires AnswersStarts(lows, start) && highs(wanted).Success?
    ensures HighRead(previous, lows, highs, wanted).Success?
    ensures var high := At(highs(wanted).value.found, t, p);
            At(HighRead(previous, lows, highs, wanted).value, t, p) ==
              if high.None? then None
              else
                var held := At(previous, t, p);
                var low := if held.Some? && held.value.low <= high.value then held.value.low else start(t, p);
                if low <= high.value then Some(Watermarks(low, high.value)) else None
  {
    var found := highs(wanted).value.found;
    var known, uncached := Known(previous, found, found.Keys), Uncached(previous, found, found.Keys);
    assert lows(uncached).Success?;
    var more := lows(uncached).value.found;
    assert FindsStarts(more, uncached, start);
    MergedAt(known, found, t, p);
    MergedAt(ExtendedBy(known, more), found, t, p);
    if At(found, t, p).Some? { LowUsed(previous, found, more, start, t, p); }
  }

  /** The cheaper read asks for a low mark exactly where it read a high and holds no mark at or below it. */
  lemma AsksLowsExactlyWhereNoneIsHeld(previous: Marks, highs: Offsets, t: string, p: int)
    ensures IsAsked(Uncached(previous, highs, highs.Keys), t, p) <==>
              && At(highs, t, p).Some?
              && !(At(previous, t, p).Some? && At(previous, t, p).value.low <= At(highs, t, p).value)
  {
    if At(highs, t, p).Some? {
      assert p in MissingLows(previous, t, highs[t]) <==> CachedLow(previous, t, p, highs[t][p]).None?;
    }
  }

  lemma LowUsed(previous: Marks, found: Offsets, more: Offsets, start: (string, int) -> int, t: string, p: int)
    requires t in found && p in found[t]
    requires FindsStarts(more, Uncached(previous, found, found.Keys), start)
    ensures var known, cached := Known(previous, found, found.Keys), CachedLow(previous, t, p, found[t][p]);
            && (cached.Some? ==> At(known, t, p) == cached)
            && (cached.None? ==> Uncached(previous, found, found.Keys) != map[])
            && At(ExtendedBy(known, more), t, p) == Some(if cached.Some? then cached.value else start(t, p))
  {
    var known, uncached := Known(previous, found, found.Keys), Uncached(previous, found, found.Keys);
    var cached := CachedLow(previous, t, p, found[t][p]);
    assert p in MissingLows(previous, t, found[t]) <==> cached.None?;
    assert IsAsked(uncached, t, p) <==> cached.None?;
    assert At(more, t, p) == if IsAsked(uncached, t, p) then Some(start(t, p)) else None;
    assert ExtendedBy(known, more)[t] == LowsOf(known, t) + LowsOf(more, t);
  }

  lemma FullReadAt(lows: LookUp<Asked>, highs: LookUp<Asked>, wanted: Asked,
      start: (string, int) -> int, t: string, p: int)
    requires AnswersStarts(lows, start) && highs(wanted).Success?
    requires forall q, r :: At(highs(wanted).value.found, q, r).Some? ==> IsAsked(wanted, q, r)
    ensures WatermarksOf(lows, highs, wanted).Success?
    ensures var high := At(highs(wanted).value.found, t, p);
            At(WatermarksOf(lows, highs, wanted).value, t, p) ==
              if high.None? || high.value < start(t, p) then None else Some(Watermarks(start(t, p), high.value))
  {
    assert lows(wanted).Success? && FindsStarts(lows(wanted).value.found, wanted, start);
    MergedAt(lows(wanted).value.found, highs(wanted).value.found, t, p);
  }

  lemma ReadsAgreeAt(previous: Marks, lows: LookUp<Asked>, highs: LookUp<Asked>, wanted: Asked,
      start: (string, int) -> int, t: string, p: int)
    requires AnswersStarts(lows, start) && highs(wanted).Success?
    requires forall q, r :: At(highs(wanted).value.found, q, r).Some? ==> IsAsked(wanted, q, r)
    ensures HighRead(previous, lows, highs, wanted).Success? && WatermarksOf(lows, highs, wanted).Success?
    ensures IsCurrent(previous, highs(wanted).value.found, start, t, p) <==>
              At(HighRead(previous, lows, highs, wanted).value, t, p)
                == At(WatermarksOf(lows, highs, wanted).value, t, p)
  {
    HighReadAt(previous, lows, highs, wanted, start, t, p);
    FullReadAt(lows, highs, wanted, start, t, p);
  }

  /** Neither read leaves an inverted range or a topic without marks. */
  lemma ReadsAreOrdered(previous: Marks, lows: LookUp<Asked>, highs: LookUp<Asked>, wanted: Asked)
    ensures HighRead(previous, lows, highs, wanted).Success? ==> Ordered(HighRead(previous, lows, highs, wanted).value)
    ensures WatermarksOf(lows, highs, wanted).Success? ==> Ordered(WatermarksOf(lows, highs, wanted).value)
  {
    if WatermarksOf(lows, highs, wanted).Success? {
      MergedIsOrdered(lows(wanted).value.found, highs(wanted).value.found);
    }
    if HighRead(previous, lows, highs, wanted).Success? {
      var found := highs(wanted).value.found;
      var known, uncached := Known(previous, found, found.Keys), Uncached(previous, found, found.Keys);
      if uncached == map[] { MergedIsOrdered(known, found); }
      else { MergedIsOrdered(ExtendedBy(known, lows(uncached).value.found), found); }
    }
  }

  /**
   * When the lookups answer every partition asked, reading only the highs builds the
   * table the full read builds exactly when every low mark it takes over still starts its log.
   */
  lemma HighReadExactlyWhenCurrent(previous: Marks, lows: LookUp<Asked>, highs: LookUp<Asked>, wanted: Asked,
      start: (string, int) -> int)
    requires AnswersStarts(lows, start) && highs(wanted).Success?
    requires forall t, p :: At(highs(wanted).value.found, t, p).Some? ==> IsAsked(wanted, t, p)
    ensures HighRead(previous, lows, highs, wanted) == WatermarksOf(lows, highs, wanted) <==>
              CacheIsCurrent(previous, highs(wanted).value.found, start)
  {
    var found := highs(wanted).value.found;
    ReadsAgreeAt(previous, lows, highs, wanted, start, "", 0);
    var cheap, full := HighRead(previous, lows, highs, wanted).value, WatermarksOf(lows, highs, wanted).value;
    forall t, p ensures IsCurrent(previous, found, start, t, p) <==> At(cheap, t, p) == At(full, t, p) {
      ReadsAgreeAt(previous, lows, highs, wanted, start, t, p);
    }
    ReadsAreOrdered(previous, lows, highs, wanted);
    TablesAgree(previous, found, start, cheap, full);
  }

  lemma TablesAgree(previous: Marks, found: Offsets, start: (string, int) -> int, cheap: Marks, full: Marks)
    requires Ordered(cheap) && Ordered(full)
    requires forall t, p :: IsCurrent(previous, found, start, t, p) <==> At(cheap, t, p) == At(full, t, p)
    ensures cheap == full <==> CacheIsCurrent(previous, found, start)
  {
    if CacheIsCurrent(previous, found, start) {
      forall t, p ensures At(cheap, t, p) == At(full, t, p) {
        assert IsCurrent(previous, found, start, t, p);
      }
      MarksAreTheirPartitions(cheap, full);
    }
  }

  // ------------------------------------------------------------ a log that was cut

  /** A lookup that answers every partition asked with the same offset. */
  function AllAt(offset: int): LookUp<Asked> {
    (asked: Asked) => Success(Lookup(map t | t in asked :: map p | p in asked[t] :: offset, None))
  }

  function StartAt(offset: int): (string, int) -> int {
    (topic: string, partition: int) => offset
  }

  lemma AllAtAnswers(offset: int)
    ensures AnswersStarts(AllAt(offset), StartAt(offset))
  {
    forall asked: Asked ensures AllAt(offset)(asked).Success?
      && FindsStarts(AllAt(offset)(asked).value.found, asked, StartAt(offset))
    {
    }
  }

  lemma AllAtFinds(offset: int, asked: Asked, t: string, p: int)
    ensures AllAt(offset)(asked).Success?
    ensures At(AllAt(offset)(asked).value.found, t, p) == if IsAsked(asked, t, p) then Some(offset) else None
  {
  }

  /** A partition whose log was cut from 0 to 3 since its low mark was read still shows 0. */
  lemma MovedStartIsMissed()
    ensures var previous: Marks := map["t" := map[0 := Watermarks(0, 5)]];
            var wanted: Asked := map["t" := {0}];
            var cheap, full := HighRead(previous, AllAt(3), AllAt(5), wanted), WatermarksOf(AllAt(3), AllAt(5), wanted);
            && AnswersStarts(AllAt(3), StartAt(3))
            && cheap.Success? && At(cheap.value, "t", 0) == Some(Watermarks(0, 5))
            && full.Success? && At(full.value, "t", 0) == Some(Watermarks(3, 5))
  {
    var previous: Marks := map["t" := map[0 := Watermarks(0, 5)]];
    var wanted: Asked := map["t" := {0}];
    AllAtAnswers(3);
    forall t, p ensures At(AllAt(5)(wanted).value.found, t, p) == if IsAsked(wanted, t, p) then Some(5) else None {
      AllAtFinds(5, wanted, t, p);
    }
    assert CachedLow(previous, "t", 0, 5) == Some(0);
    HighReadAt(previous, AllAt(3), AllAt(5), wanted, StartAt(3), "t", 0);
    FullReadAt(AllAt(3), AllAt(5), wanted, StartAt(3), "t", 0);
  }
}
