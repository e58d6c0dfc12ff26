/** What a run of sweeps keeps: the table, the pace of the attempts, and what subscribers know. */
module OffsetRuns {
  import opened OffsetIngest
  import opened Wrappers

  function StateAfter(lane: Lane, sweeps: seq<Sweep>): State
    decreases |sweeps|
  {
    if sweeps == [] then State(map[], map[], None)
    else After(lane, StateAfter(lane, sweeps[..|sweeps| - 1]), sweeps[|sweeps| - 1])
  }

  /** What the last sweep of a run fetched, and with what outcome. */
  function LastFetches(lane: Lane, sweeps: seq<Sweep>): Fetches
    requires sweeps != []
  {
    FetchesIn(lane, StateAfter(lane, sweeps[..|sweeps| - 1]), sweeps[|sweeps| - 1])
  }

  function LastUpdates(lane: Lane, sweeps: seq<Sweep>): map<string, LagUpdate>
    requires sweeps != []
  {
    UpdatesIn(lane, StateAfter(lane, sweeps[..|sweeps| - 1]), sweeps[|sweeps| - 1])
  }

  // ------------------------------------------------------------------------ the table

  /** The latest successful fetch of a group since it appeared. */
  function Latest(lane: Lane, sweeps: seq<Sweep>, id: string): Option<GroupOffsets>
    decreases |sweeps|
  {
    if sweeps == [] || id !in sweeps[|sweeps| - 1].topology then None
    else
      var fetches := LastFetches(lane, sweeps);
      if id in fetches && fetches[id].Some? then fetches[id] else Latest(lane, sweeps[..|sweeps| - 1], id)
  }

  /** After every sweep the table maps each listed group to its latest successful fetch, and holds no other. */
  lemma {:induction false} TableHoldsLatest(lane: Lane, sweeps: seq<Sweep>, id: string)
    ensures Held(StateAfter(lane, sweeps).table, id) == Latest(lane, sweeps, id)
    ensures sweeps != [] ==> StateAfter(lane, sweeps).table.Some?
    decreases |sweeps|
  {
    if sweeps != [] {
      var front, last := sweeps[..|sweeps| - 1], sweeps[|sweeps| - 1];
      TableHoldsLatest(lane, front, id);
      NextIsHeld(last.topology, StateAfter(lane, front).table, LastFetches(lane, sweeps), id);
    }
  }

  lemma NextIsHeld(topology: Topology, table: Option<OffsetTable>, fetches: Fetches, id: string)
    ensures Held(Some(NextTable(topology, table, fetches)), id)
              == if id in topology then Next(table, fetches, id) else None
  {
  }

  // ------------------------------------------------------------------------- the pace

  /** When a group was last attempted since it appeared. */
  function LastAttempt(lane: Lane, sweeps: seq<Sweep>, id: string): Option<nat>
    decreases |sweeps|
  {
    if sweeps == [] || id !in sweeps[|sweeps| - 1].topology then None
    else if id in LastFetches(lane, sweeps) then Some(sweeps[|sweeps| - 1].markedAt)
    else LastAttempt(lane, sweeps[..|sweeps| - 1], id)
  }

  function AttemptedAt(state: State, id: string): Option<nat> {
    if id in state.attemptedAt then Some(state.attemptedAt[id]) else None
  }

  lemma {:induction false} AttemptsAreRecorded(lane: Lane, sweeps: seq<Sweep>, id: string)
    ensures AttemptedAt(StateAfter(lane, sweeps), id) == LastAttempt(lane, sweeps, id)
    decreases |sweeps|
  {
    if sweeps != [] {
      var front, last := sweeps[..|sweeps| - 1], sweeps[|sweeps| - 1];
      AttemptsAreRecorded(lane, front, id);
      AttemptRecorded(lane, StateAfter(lane, front), last, id);
    }
  }

  /** How long a group waits between attempts. */
  function Pace(tiers: Tiers, hot: bool): nat {
    if hot then tiers.fast else tiers.slow
  }

  lemma AttemptRecorded(lane: Lane, state: State, sweep: Sweep, id: string)
    ensures AttemptedAt(After(lane, state, sweep), id) ==
              if id !in sweep.topology then None
              else if id in FetchesIn(lane, state, sweep) then Some(sweep.markedAt)
              else AttemptedAt(state, id)
    ensures id in FetchesIn(lane, state, sweep) <==>
              id in sweep.topology && match AttemptedAt(state, id)
                case None => true
                case Some(at) =>
                  || (id in sweep.hot && sweep.refresh)
                  || sweep.checkedAt >= at + Pace(lane.tiers, id in sweep.hot)
                  || Pace(lane.tiers, id in sweep.hot) == 0
  {
    assert FetchesIn(lane, state, sweep).Keys == DueIn(lane, state, sweep);
  }

  /** Every sweep looks at the clock no earlier than the one before it did. */
  ghost predicate Monotone(sweeps: seq<Sweep>)
    decreases |sweeps|
  {
    sweeps != [] ==>
      var front, last := sweeps[..|sweeps| - 1], sweeps[|sweeps| - 1];
      && Monotone(front)
      && last.checkedAt <= last.markedAt
      && (front != [] ==> front[|front| - 1].markedAt <= last.checkedAt)
  }

  lemma {:induction false} AttemptsArePast(lane: Lane, sweeps: seq<Sweep>, id: string)
    requires Monotone(sweeps) && LastAttempt(lane, sweeps, id).Some?
    ensures LastAttempt(lane, sweeps, id).value <= sweeps[|sweeps| - 1].markedAt
    decreases |sweeps|
  {
    if id !in LastFetches(lane, sweeps) { AttemptsArePast(lane, sweeps[..|sweeps| - 1], id); }
  }

  /**
   * A sweep attempts a listed group exactly when it never did since the group appeared
   * or its threshold has passed: `slow` when cold, `fast` when hot, at once when refreshed.
   */
  lemma AttemptsExactlyTheDue(lane: Lane, sweeps: seq<Sweep>, id: string)
    requires sweeps != [] && Monotone(sweeps)
    ensures var front, last := sweeps[..|sweeps| - 1], sweeps[|sweeps| - 1];
            var at := LastAttempt(lane, front, id);
            && (at.Some? ==> at.value <= last.checkedAt)
            && (id in LastFetches(lane, sweeps) <==>
                  id in last.topology
                  && (at.None? || (id in last.hot && last.refresh)
                      || last.checkedAt - at.value >= Pace(lane.tiers, id in last.hot)))
  {
    var front, last := sweeps[..|sweeps| - 1], sweeps[|sweeps| - 1];
    AttemptsAreRecorded(lane, front, id);
    AttemptRecorded(lane, StateAfter(lane, front), last, id);
    if LastAttempt(lane, front, id).Some? { AttemptsArePast(lane, front, id); }
  }

  /** Two attempts in a row on a group that stays listed keep the pace of its tier. */
  lemma AttemptsKeepPace(lane: Lane, sweeps: seq<Sweep>, id: string)
    requires sweeps != [] && Monotone(sweeps) && id in LastFetches(lane, sweeps)
    ensures var front, last := sweeps[..|sweeps| - 1], sweeps[|sweeps| - 1];
            var before := LastAttempt(lane, front, id);
            && LastAttempt(lane, sweeps, id) == Some(last.markedAt)
            && (before.Some? && id !in last.hot ==> last.markedAt - before.value >= lane.tiers.slow)
            && (before.Some? && id in last.hot && !last.refresh ==> last.markedAt - before.value >= lane.tiers.fast)
  {
    AttemptsExactlyTheDue(lane, sweeps, id);
  }

  /** After a sweep no listed group's last attempt was past its threshold when the sweep looked. */
  lemma NoneIsOverdue(lane: Lane, sweeps: seq<Sweep>, id: string)
    requires sweeps != [] && Monotone(sweeps) && id in sweeps[|sweeps| - 1].topology
    ensures var last, at := sweeps[|sweeps| - 1], LastAttempt(lane, sweeps, id);
            && at.Some?
            && (at == Some(last.markedAt) || last.checkedAt - at.value < Pace(lane.tiers, id in last.hot))
            && (id in last.hot && last.refresh ==> at == Some(last.markedAt))
  {
    AttemptsExactlyTheDue(lane, sweeps, id);
  }

  // ------------------------------------------------------------------- what is published

  /** What is published of a group is the lag projected from the offsets the table then holds. */
  lemma UpdatesTellTheTable(lane: Lane, sweeps: seq<Sweep>, id: string)
    requires sweeps != [] && id in LastUpdates(lane, sweeps)
    ensures var last, update := sweeps[|sweeps| - 1], LastUpdates(lane, sweeps)[id];
            var held := Held(StateAfter(lane, sweeps).table, id);
            && id in last.topology && held.Some?
            && last.answer(id, Asked(last.topology[id], Latest(lane, sweeps[..|sweeps| - 1], id))) == held
            && var lag := last.project(id, held.value);
               lag.total.Some? && update == LagUpdate(id, lag.total.value, lag.complete, lag.offsets)
  {
    var last, fetches := sweeps[|sweeps| - 1], LastFetches(lane, sweeps);
    KnownLagsAreProjected(last, fetches, id);
    TableHoldsLatest(lane, sweeps, id);
    TableHoldsLatest(lane, sweeps[..|sweeps| - 1], id);
    assert fetches.Keys == DueIn(lane, StateAfter(lane, sweeps[..|sweeps| - 1]), last);
  }

  function Get(lags: map<string, LagUpdate>, id: string): Option<LagUpdate> {
    if id in lags then Some(lags[id]) else None
  }

  /** The lag of a group's latest refresh whose total was known, since it appeared. */
  function KnownLag(lane: Lane, sweeps: seq<Sweep>, id: string): Option<LagUpdate>
    decreases |sweeps|
  {
    if sweeps == [] || id !in sweeps[|sweeps| - 1].topology then None
    else
      var lags := KnownLags(sweeps[|sweeps| - 1], LastFetches(lane, sweeps));
      if id in lags then Some(lags[id]) else KnownLag(lane, sweeps[..|sweeps| - 1], id)
  }

  /** What a subscriber that keeps the last update of each group holds. */
  function Heard(lane: Lane, sweeps: seq<Sweep>, id: string): Option<LagUpdate>
    decreases |sweeps|
  {
    if sweeps == [] then None
    else
      var updates := LastUpdates(lane, sweeps);
      if id in updates then Some(updates[id]) else Heard(lane, sweeps[..|sweeps| - 1], id)
  }

  function Mark(state: State, id: string): Option<int> {
    if id in state.published then Some(state.published[id]) else None
  }

  lemma StepMarks(lane: Lane, state: State, sweep: Sweep, id: string)
    ensures var lags := KnownLags(sweep, FetchesIn(lane, state, sweep));
            && (id in lags ==> id in sweep.topology)
            && Mark(After(lane, state, sweep), id) ==
                 (if id !in sweep.topology then None
                  else if id in lags then Some(lane.fingerprint(lags[id]))
                  else Mark(state, id))
            && Get(UpdatesIn(lane, state, sweep), id) ==
                 (if id in lags && Mark(state, id) != Some(lane.fingerprint(lags[id])) then Some(lags[id]) else None)
  {
    assert FetchesIn(lane, state, sweep).Keys == DueIn(lane, state, sweep);
  }

  lemma {:induction false} MarksAreOfKnownLags(lane: Lane, sweeps: seq<Sweep>, id: string)
    ensures Mark(StateAfter(lane, sweeps), id) == match KnownLag(lane, sweeps, id)
              case None => None
              case Some(lag) => Some(lane.fingerprint(lag))
    decreases |sweeps|
  {
    if sweeps != [] {
      MarksAreOfKnownLags(lane, sweeps[..|sweeps| - 1], id);
      StepMarks(lane, StateAfter(lane, sweeps[..|sweeps| - 1]), sweeps[|sweeps| - 1], id);
    }
  }

  /** Two different updates the fingerprint does not tell apart. */
  predicate Collide(fingerprint: Fingerprint, left: LagUpdate, right: LagUpdate) {
    left != right && fingerprint(left) == fingerprint(right)
  }

  /** A sweep publishes a group's known lag unless the one known before it has the same fingerprint. */
  lemma PublishesNewMarks(lane: Lane, sweeps: seq<Sweep>, id: string)
    requires sweeps != []
    ensures var before := KnownLag(lane, sweeps[..|sweeps| - 1], id);
            var lags := KnownLags(sweeps[|sweeps| - 1], LastFetches(lane, sweeps));
            Get(LastUpdates(lane, sweeps), id) ==
              if id in lags && !(before.Some? && lane.fingerprint(before.value) == lane.fingerprint(lags[id]))
              then Some(lags[id]) else None
  {
    var front, last := sweeps[..|sweeps| - 1], sweeps[|sweeps| - 1];
    MarksAreOfKnownLags(lane, front, id);
    StepMarks(lane, StateAfter(lane, front), last, id);
  }

  /**
   * A sweep publishes a group's lag just when it is not the last one known since the group
   * appeared, exactly unless it collides with that one.
   */
  lemma PublishesExactlyChanges(lane: Lane, sweeps: seq<Sweep>, id: string)
    requires sweeps != []
    ensures var before := KnownLag(lane, sweeps[..|sweeps| - 1], id);
            var lags := KnownLags(sweeps[|sweeps| - 1], LastFetches(lane, sweeps));
            (id in LastUpdates(lane, sweeps) <==> id in lags && before != Some(lags[id])) <==>
              !(id in lags && before.Some? && Collide(lane.fingerprint, before.value, lags[id]))
    ensures var lags := KnownLags(sweeps[|sweeps| - 1], LastFetches(lane, sweeps));
            id in LastUpdates(lane, sweeps) ==> id in lags && LastUpdates(lane, sweeps)[id] == lags[id]
  {
    PublishesNewMarks(lane, sweeps, id);
  }

  /** Whatever the fingerprint, a subscriber holds an update with the fingerprint of the latest known lag. */
  lemma {:induction false} SubscriberHoldsKnownMark(lane: Lane, sweeps: seq<Sweep>, id: string)
    ensures var heard, known := Heard(lane, sweeps, id), KnownLag(lane, sweeps, id);
            known.Some? ==> heard.Some? && lane.fingerprint(heard.value) == lane.fingerprint(known.value)
    decreases |sweeps|
  {
    if sweeps != [] {
      SubscriberHoldsKnownMark(lane, sweeps[..|sweeps| - 1], id);
      PublishesNewMarks(lane, sweeps, id);
      StepMarks(lane, StateAfter(lane, sweeps[..|sweeps| - 1]), sweeps[|sweeps| - 1], id);
    }
  }

  /** What a subscriber held of a listed group when its latest known lag came up. */
  function HeardBefore(lane: Lane, sweeps: seq<Sweep>, id: string): Option<LagUpdate>
    decreases |sweeps|
  {
    if sweeps == [] || id !in sweeps[|sweeps| - 1].topology then None
    else
      var front := sweeps[..|sweeps| - 1];
      if id !in KnownLags(sweeps[|sweeps| - 1], LastFetches(lane, sweeps)) then HeardBefore(lane, front, id)
      else if KnownLag(lane, front, id).None? then None
      else Heard(lane, front, id)
  }

  /**
   * A subscriber holds the latest known lag of a listed group exactly unless that lag collides
   * with the update it held when the lag came up: no other collision loses anything.
   */
  lemma {:induction false} SubscriberHoldsKnownLag(lane: Lane, sweeps: seq<Sweep>, id: string)
    ensures var known, before := KnownLag(lane, sweeps, id), HeardBefore(lane, sweeps, id);
            known.Some? ==>
              (Heard(lane, sweeps, id) == known <==>
                !(before.Some? && Collide(lane.fingerprint, before.value, known.value)))
    decreases |sweeps|
  {
    if sweeps != [] {
      var front := sweeps[..|sweeps| - 1];
      SubscriberHoldsKnownLag(lane, front, id);
      SubscriberHoldsKnownMark(lane, front, id);
      PublishesNewMarks(lane, sweeps, id);
      StepMarks(lane, StateAfter(lane, front), sweeps[|sweeps| - 1], id);
    }
  }

  /** Whatever the fingerprint, an update of a group that stayed listed is not the one heard before it. */
  lemma ConsecutiveUpdatesDiffer(lane: Lane, sweeps: seq<Sweep>, id: string)
    requires sweeps != []
    requires id in LastUpdates(lane, sweeps) && KnownLag(lane, sweeps[..|sweeps| - 1], id).Some?
    ensures Heard(lane, sweeps[..|sweeps| - 1], id).Some?
    ensures Heard(lane, sweeps[..|sweeps| - 1], id).value != LastUpdates(lane, sweeps)[id]
  {
    PublishesNewMarks(lane, sweeps, id);
    SubscriberHoldsKnownMark(lane, sweeps[..|sweeps| - 1], id);
  }
}
