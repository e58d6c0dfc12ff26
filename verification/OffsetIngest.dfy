/** The lane that keeps the committed offsets of every group, sweep by sweep. */
module OffsetIngest {
  import opened TopicOrder
  import opened Wrappers

  datatype CommittedOffset = CommittedOffset(at: TopicPartition, offset: int)

  /** What a group has committed. */
  type GroupOffsets = seq<CommittedOffset>

  type OffsetTable = map<string, GroupOffsets>

  /** The groups of the cluster, each with the partitions assigned to its members. */
  type Topology = map<string, seq<TopicPartition>>

  datatype Lag = Lag(total: Option<int>, complete: bool, offsets: seq<Option<int>>)

  datatype LagUpdate = LagUpdate(group: string, totalLag: int, complete: bool, offsets: seq<Option<int>>)

  datatype Wave = Wave(refreshed: set<string>, failed: set<string>, dropped: set<string>)

  /** How long a group waits between attempts: while it is watched, and otherwise. */
  datatype Tiers = Tiers(fast: nat, slow: nat)

  /**
   * Everything one sweep meets: the cluster, who is watching, the clock when it
   * checks what is due and when it starts fetching, what the session answers for
   * a group and partitions, and how lag follows from a group's offsets.
   */
  datatype Sweep = Sweep(
    topology: Topology,
    hot: set<string>,
    refresh: bool,
    checkedAt: nat,
    markedAt: nat,
    answer: (string, Option<set<TopicPartition>>) -> Option<GroupOffsets>,
    project: (string, GroupOffsets) -> Lag)

  // ---------------------------------------------------------- what a fetch asks for

  function Consumed(assignment: seq<TopicPartition>): set<string> {
    set p | p in assignment :: p.topic
  }

  function Fetched(offsets: GroupOffsets): seq<TopicPartition>
    decreases offsets
  {
    if offsets == [] then [] else [offsets[0].at] + Fetched(offsets[1..])
  }

  lemma {:induction false} FetchedListsAll(offsets: GroupOffsets)
    ensures forall p :: p in Fetched(offsets) <==> exists c :: c in offsets && c.at == p
    decreases offsets
  {
    if offsets != [] {
      FetchedListsAll(offsets[1..]);
      assert offsets == [offsets[0]] + offsets[1..];
    }
  }

  /** Asked for: what is assigned, and what was fetched before on a topic still consumed. */
  predicate Wants(p: TopicPartition, assignment: seq<TopicPartition>, held: Option<GroupOffsets>) {
    || p in assignment
    || (held.Some? && (exists q :: q in assignment && q.topic == p.topic)
        && exists c :: c in held.value && c.at == p)
  }

  lemma WantsConsumed(p: TopicPartition, assignment: seq<TopicPartition>, held: Option<GroupOffsets>)
    ensures Wants(p, assignment, held) <==>
              || p in assignment
              || (held.Some? && p.topic in Consumed(assignment) && p in Fetched(held.value))
  {
    if held.Some? { FetchedListsAll(held.value); }
  }

  ghost predicate AsksFor(
      asked: Option<seq<TopicPartition>>, assignment: seq<TopicPartition>, held: Option<GroupOffsets>)
  {
    match asked
    case None => assignment == []
    case Some(partitions) =>
      && assignment != []
      && StrictlySorted(partitions)
      && forall p :: p in partitions <==> Wants(p, assignment, held)
  }

  lemma AsksForOneList(
      left: Option<seq<TopicPartition>>, right: Option<seq<TopicPartition>>,
      assignment: seq<TopicPartition>, held: Option<GroupOffsets>)
    requires AsksFor(left, assignment, held) && AsksFor(right, assignment, held)
    ensures left == right
  {
    if left.Some? { StrictlySortedIsUnique(left.value, right.value); }
  }

  method OffsetFetchPartitions(assignment: seq<TopicPartition>, held: Option<GroupOffsets>)
    returns (asked: Option<seq<TopicPartition>>)
    ensures AsksFor(asked, assignment, held)
  {
    if assignment == [] { return None; }
    var partitions := assignment;
    if held.Some? {
      for i := 0 to |held.value|
        invariant forall p :: p in partitions <==>
                    p in assignment || (p.topic in Consumed(assignment) && p in Fetched(held.value[..i]))
      {
        var at := held.value[i].at;
        FetchedListsAll(held.value[..i]);
        FetchedListsAll(held.value[..i + 1]);
        assert held.value[..i + 1] == held.value[..i] + [held.value[i]];
        if at.topic in Consumed(assignment) { partitions := partitions + [at]; }
      }
      assert held.value[..|held.value|] == held.value;
    }
    var sorted := SortAndDedup(partitions);
    forall p ensures p in sorted <==> Wants(p, assignment, held) {
      WantsConsumed(p, assignment, held);
    }
    asked := Some(sorted);
  }

  /** The partitions a fetch names, or none for every partition the group committed. */
  function Asked(assignment: seq<TopicPartition>, held: Option<GroupOffsets>): Option<set<TopicPartition>> {
    if assignment == [] then None
    else Some(set p | p in assignment + (if held.Some? then Fetched(held.value) else []) && Wants(p, assignment, held))
  }

  // ---------------------------------------------------------------- what a sweep does

  function Listed<T>(kept: map<string, T>, topology: Topology): map<string, T> {
    map id | id in kept && id in topology :: kept[id]
  }

  function Threshold(tiers: Tiers, sweep: Sweep, id: string): nat {
    if id !in sweep.hot then tiers.slow else if sweep.refresh then 0 else tiers.fast
  }

  function Elapsed(from: nat, now: nat): nat {
    if now > from then now - from else 0
  }

  predicate IsDue(tiers: Tiers, attemptedAt: map<string, nat>, sweep: Sweep, id: string) {
    id !in attemptedAt || Elapsed(attemptedAt[id], sweep.checkedAt) >= Threshold(tiers, sweep, id)
  }

  function DueGroups(tiers: Tiers, attemptedAt: map<string, nat>, sweep: Sweep): set<string> {
    set id | id in sweep.topology && IsDue(tiers, attemptedAt, sweep, id)
  }

  function StaleGroups(topology: Topology, table: Option<OffsetTable>): set<string> {
    if table.None? then {} else set id | id in table.value && id !in topology
  }

  function Held(table: Option<OffsetTable>, id: string): Option<GroupOffsets> {
    if table.Some? && id in table.value then Some(table.value[id]) else None
  }

  type Fetches = map<string, Option<GroupOffsets>>

  function FetchesOf(table: Option<OffsetTable>, sweep: Sweep, due: set<string>): Fetches
    requires due <= sweep.topology.Keys
  {
    map id | id in due :: sweep.answer(id, Asked(sweep.topology[id], Held(table, id)))
  }

  function Refreshed(fetches: Fetches): set<string> {
    set id | id in fetches && fetches[id].Some?
  }

  function Failed(fetches: Fetches): set<string> {
    set id | id in fetches && fetches[id].None?
  }

  /** A group's offsets after the sweep: fetched anew, or else as they were held. */
  function Next(table: Option<OffsetTable>, fetches: Fetches, id: string): Option<GroupOffsets> {
    if id in fetches && fetches[id].Some? then fetches[id] else Held(table, id)
  }

  function NextTable(topology: Topology, table: Option<OffsetTable>, fetches: Fetches): OffsetTable {
    map id | id in topology && Next(table, fetches, id).Some? :: Next(table, fetches, id).value
  }

  function UpdateOf(sweep: Sweep, id: string, offsets: GroupOffsets): Option<LagUpdate> {
    var lag := sweep.project(id, offsets);
    if lag.total.None? then None else Some(LagUpdate(id, lag.total.value, lag.complete, lag.offsets))
  }

  /** The lag of every group refreshed whose total is known. */
  function KnownLags(sweep: Sweep, fetches: Fetches): map<string, LagUpdate> {
    map id | id in fetches && fetches[id].Some? && UpdateOf(sweep, id, fetches[id].value).Some? ::
      UpdateOf(sweep, id, fetches[id].value).value
  }

  /** A refreshed group's lag is told of as it was projected, whenever its total is known. */
  lemma KnownLagsAreProjected(sweep: Sweep, fetches: Fetches, id: string)
    ensures id in KnownLags(sweep, fetches) <==>
              id in fetches && fetches[id].Some? && sweep.project(id, fetches[id].value).total.Some?
    ensures id in KnownLags(sweep, fetches) ==>
              var lag, update := sweep.project(id, fetches[id].value), KnownLags(sweep, fetches)[id];
              && update.group == id && lag.total == Some(update.totalLag)
              && update.complete == lag.complete && update.offsets == lag.offsets
  {
  }

  type Fingerprint = LagUpdate -> int

  function Fingerprints(fingerprint: Fingerprint, lags: map<string, LagUpdate>): map<string, int> {
    map id | id in lags :: fingerprint(lags[id])
  }

  /** The lags whose fingerprint is not the one last published. */
  function Updates(fingerprint: Fingerprint, published: map<string, int>, lags: map<string, LagUpdate>)
    : map<string, LagUpdate>
  {
    map id | id in lags && !(id in published && published[id] == fingerprint(lags[id])) :: lags[id]
  }

  datatype Lane = Lane(tiers: Tiers, fingerprint: Fingerprint)

  datatype State = State(attemptedAt: map<string, nat>, published: map<string, int>, table: Option<OffsetTable>)

  function DueIn(lane: Lane, state: State, sweep: Sweep): set<string> {
    DueGroups(lane.tiers, Listed(state.attemptedAt, sweep.topology), sweep)
  }

  function FetchesIn(lane: Lane, state: State, sweep: Sweep): Fetches {
    FetchesOf(state.table, sweep, DueIn(lane, state, sweep))
  }

  function UpdatesIn(lane: Lane, state: State, sweep: Sweep): map<string, LagUpdate> {
    Updates(lane.fingerprint, Listed(state.published, sweep.topology), KnownLags(sweep, FetchesIn(lane, state, sweep)))
  }

  /** The state after a sweep that takes no shortcut. */
  function After(lane: Lane, state: State, sweep: Sweep): State {
    var fetches := FetchesIn(lane, state, sweep);
    State(
      Listed(state.attemptedAt, sweep.topology) + map id | id in fetches :: sweep.markedAt,
      Listed(state.published, sweep.topology) + Fingerprints(lane.fingerprint, KnownLags(sweep, fetches)),
      Some(NextTable(sweep.topology, state.table, fetches)))
  }

  function WaveIn(lane: Lane, state: State, sweep: Sweep): Wave {
    var fetches := FetchesIn(lane, state, sweep);
    Wave(Refreshed(fetches), Failed(fetches), StaleGroups(sweep.topology, state.table))
  }

  /** The groups refreshed and those that failed are the ones due, and no group is both. */
  lemma WavePartitionsDue(lane: Lane, state: State, sweep: Sweep)
    ensures var wave := WaveIn(lane, state, sweep);
            && wave.refreshed + wave.failed == DueIn(lane, state, sweep)
            && wave.refreshed !! wave.failed
            && (forall id | id in DueIn(lane, state, sweep) ::
                  id in wave.refreshed <==>
                    sweep.answer(id, Asked(sweep.topology[id], Held(state.table, id))).Some?)
            && wave.dropped !! wave.refreshed + wave.failed
            && After(lane, state, sweep).table.value.Keys <= sweep.topology.Keys
            && (state.table.Some? ==> wave.dropped == state.table.value.Keys - sweep.topology.Keys)
  {
    var fetches := FetchesIn(lane, state, sweep);
    assert fetches.Keys == DueIn(lane, state, sweep);
  }

  /** With nothing due and nothing dropped, the full path would change nothing either. */
  lemma QuietSweepChangesNothing(lane: Lane, state: State, sweep: Sweep)
    requires DueIn(lane, state, sweep) == {} && StaleGroups(sweep.topology, state.table) == {} && state.table.Some?
    ensures After(lane, state, sweep)
              == State(Listed(state.attemptedAt, sweep.topology), Listed(state.published, sweep.topology), state.table)
    ensures UpdatesIn(lane, state, sweep) == map[]
    ensures WaveIn(lane, state, sweep) == Wave({}, {}, {})
  {
    var fetches := FetchesIn(lane, state, sweep);
    assert fetches == map[];
    forall id | id in state.table.value ensures id in sweep.topology {
      assert id !in StaleGroups(sweep.topology, state.table);
    }
    assert NextTable(sweep.topology, state.table, fetches) == state.table.value;
    var after := After(lane, state, sweep);
    assert after.attemptedAt == Listed(state.attemptedAt, sweep.topology);
    assert after.published == Listed(state.published, sweep.topology);
  }

  // ------------------------------------------------------------------------ the lane

  /** What the rest of the server sees of the lane. */
  class OffsetStore {
    var table: Option<OffsetTable>
    var bus: seq<map<string, LagUpdate>>

    constructor ()
      ensures table == None && bus == []
    {
      table, bus := None, [];
    }
  }

  class OffsetLane {
    const tiers: Tiers
    const fingerprint: Fingerprint
    var attemptedAt: map<string, nat>
    var published: map<string, int>

    constructor (tiers: Tiers, fingerprint: Fingerprint)
      ensures this.tiers == tiers && this.fingerprint == fingerprint
      ensures attemptedAt == map[] && published == map[]
    {
      this.tiers, this.fingerprint := tiers, fingerprint;
      attemptedAt, published := map[], map[];
    }

    function Current(store: OffsetStore): State
      reads this, store
    {
      State(attemptedAt, published, store.table)
    }

    method Retain(topology: Topology)
      modifies this
      ensures attemptedAt == Listed(old(attemptedAt), topology)
      ensures published == Listed(old(published), topology)
    {
      attemptedAt := Listed(attemptedAt, topology);
      published := Listed(published, topology);
    }

    method MarkAttempted(ids: set<string>, now: nat)
      modifies this`attemptedAt
      ensures attemptedAt == old(attemptedAt) + map id | id in ids :: now
    {
      var left := ids;
      ghost var done: set<string> := {};
      while left != {}
        invariant left !! done && left + done == ids
        invariant attemptedAt == old(attemptedAt) + map id | id in done :: now
        decreases left
      {
        var id :| id in left;
        attemptedAt := attemptedAt[id := now];
        left, done := left - {id}, done + {id};
      }
      assert done == ids;
    }

    /** Fetches of the groups due, in whatever order they complete. */
    method Fetch(table: Option<OffsetTable>, sweep: Sweep, due: set<string>) returns (fetches: Fetches)
      requires due <= sweep.topology.Keys
      modifies this`attemptedAt
      ensures fetches == FetchesOf(table, sweep, due)
      ensures attemptedAt == old(attemptedAt) + map id | id in due :: sweep.markedAt
    {
      MarkAttempted(due, sweep.markedAt);
      ghost var marked := attemptedAt;
      fetches := map[];
      var left := due;
      while left != {}
        invariant attemptedAt == marked
        invariant left <= due && fetches.Keys == due - left
        invariant forall id | id in fetches ::
                    fetches[id] == sweep.answer(id, Asked(sweep.topology[id], Held(table, id)))
        decreases left
      {
        var id :| id in left;
        var held := Held(table, id);
        var partitions := OffsetFetchPartitions(sweep.topology[id], held);
        AskedIsListed(partitions, sweep.topology[id], held);
        var asked := if partitions.Some? then Some(set p | p in partitions.value) else None;
        fetches := fetches[id := sweep.answer(id, asked)];
        left := left - {id};
      }
      assert fetches.Keys == due;
    }

    /** The updates of the groups refreshed, leaving out those that repeat the last one published. */
    method LagUpdates(sweep: Sweep, fetches: Fetches) returns (updates: map<string, LagUpdate>)
      modifies this`published
      ensures updates == Updates(fingerprint, old(published), KnownLags(sweep, fetches))
      ensures published == old(published) + Fingerprints(fingerprint, KnownLags(sweep, fetches))
    {
      ghost var told: map<string, LagUpdate> := map[];
      updates := map[];
      var left := Refreshed(fetches);
      while left != {}
        invariant left <= Refreshed(fetches)
        invariant LagsTold(sweep, fetches, left, told)
        invariant updates == Updates(fingerprint, old(published), told)
        invariant published == Told(fingerprint, old(published), told)
        decreases left
      {
        var id :| id in left;
        TellsNext(sweep, fetches, left, told, id);
        left := left - {id};
        var update := UpdateOf(sweep, id, fetches[id].value);
        if update.Some? {
          OneMoreTold(fingerprint, old(published), told, id, update.value);
          OneMoreUpdate(fingerprint, old(published), told, id, update.value);
          told := told[id := update.value];
          var mark := fingerprint(update.value);
          var repeats := id in published && published[id] == mark;
          published := published[id := mark];
          if !repeats { updates := updates[id := update.value]; }
        }
      }
      AllTold(sweep, fetches, told);
    }

    /** One sweep: fetch what is due, keep the table and tell of the lags that changed. */
    method Sweep(store: OffsetStore, sweep: Sweep) returns (wave: Wave)
      modifies this, store
      ensures var lane := Lane(tiers, fingerprint);
              && wave == WaveIn(lane, old(Current(store)), sweep)
              && Current(store) == After(lane, old(Current(store)), sweep)
              && store.bus == old(store.bus) + (if UpdatesIn(lane, old(Current(store)), sweep) == map[] then []
                                                else [UpdatesIn(lane, old(Current(store)), sweep)])
    {
      ghost var lane, state := Lane(tiers, fingerprint), Current(store);
      Retain(sweep.topology);
      var previous := store.table;
      var due := DueGroups(tiers, attemptedAt, sweep);
      var dropped := StaleGroups(sweep.topology, previous);
      if due == {} && dropped == {} && previous.Some? {
        QuietSweepChangesNothing(lane, state, sweep);
        return Wave({}, {}, {});
      }
      var fetches := Fetch(previous, sweep, due);
      assert fetches == FetchesIn(lane, state, sweep) && fetches.Keys == due;
      var next := BuildTable(sweep.topology, previous, fetches);
      store.table := Some(next);
      var updates := LagUpdates(sweep, fetches);
      if updates != map[] { store.bus := store.bus + [updates]; }
      wave := Wave(Refreshed(fetches), Failed(fetches), dropped);
    }
  }

  lemma AskedIsListed(
      partitions: Option<seq<TopicPartition>>, assignment: seq<TopicPartition>, held: Option<GroupOffsets>)
    requires AsksFor(partitions, assignment, held)
    ensures Asked(assignment, held) == if partitions.Some? then Some(set p | p in partitions.value) else None
  {
    if partitions.Some? {
      var asked, listed := Asked(assignment, held).value, set p | p in partitions.value;
      forall p ensures p in asked <==> p in listed {
        assert p in partitions.value <==> Wants(p, assignment, held);
        WantsConsumed(p, assignment, held);
      }
      assert asked == listed;
    }
  }

  /** What was told are the known lags of the groups no longer left. */
  ghost predicate LagsTold(sweep: Sweep, fetches: Fetches, left: set<string>, told: map<string, LagUpdate>) {
    told == KnownLags(sweep, fetches) - left
  }

  lemma TellsNext(sweep: Sweep, fetches: Fetches, left: set<string>, told: map<string, LagUpdate>, id: string)
    requires id in left && left <= Refreshed(fetches) && LagsTold(sweep, fetches, left, told)
    ensures id !in told
    ensures var update := UpdateOf(sweep, id, fetches[id].value);
            LagsTold(sweep, fetches, left - {id}, if update.Some? then told[id := update.value] else told)
  {
  }

  lemma AllTold(sweep: Sweep, fetches: Fetches, told: map<string, LagUpdate>)
    requires LagsTold(sweep, fetches, {}, told)
    ensures told == KnownLags(sweep, fetches)
  {
  }

  method BuildTable(topology: Topology, table: Option<OffsetTable>, fetches: Fetches) returns (next: OffsetTable)
    ensures next == NextTable(topology, table, fetches)
  {
    next := map[];
    var left := topology.Keys;
    ghost var done: set<string> := {};
    while left != {}
      invariant left !! done && left + done == topology.Keys
      invariant next == map id | id in done && Next(table, fetches, id).Some? :: Next(table, fetches, id).value
      decreases left
    {
      var id :| id in left;
      left, done := left - {id}, done + {id};
      if id in fetches && fetches[id].Some? {
        next := next[id := fetches[id].value];
      } else if table.Some? && id in table.value {
        next := next[id := table.value[id]];
      }
    }
    assert done == topology.Keys;
  }

  /** The fingerprints of what was told so far, over those published before. */
  function Told(fingerprint: Fingerprint, published: map<string, int>, lags: map<string, LagUpdate>): map<string, int> {
    published + Fingerprints(fingerprint, lags)
  }

  lemma OneMoreTold(
      fingerprint: Fingerprint, published: map<string, int>, lags: map<string, LagUpdate>, id: string,
      update: LagUpdate)
    requires id !in lags
    ensures Told(fingerprint, published, lags[id := update])
              == Told(fingerprint, published, lags)[id := fingerprint(update)]
  {
    assert Fingerprints(fingerprint, lags[id := update]) == Fingerprints(fingerprint, lags)[id := fingerprint(update)];
  }

  lemma OneMoreUpdate(
      fingerprint: Fingerprint, published: map<string, int>, lags: map<string, LagUpdate>, id: string,
      update: LagUpdate)
    requires id !in lags
    ensures var told, updates := Told(fingerprint, published, lags), Updates(fingerprint, published, lags);
            Updates(fingerprint, published, lags[id := update])
              == if id in told && told[id] == fingerprint(update) then updates else updates[id := update]
  {
    assert id in Told(fingerprint, published, lags) <==> id in published;
  }
}
