/** What a group's state, assignments and lag say is wrong with it. */
module GroupFindings {
  import opened Sequences
  import opened TopicOrder
  import opened Wrappers

  const LAG_WORTH_NAMING := 1000
  const ONE_MEMBER_SHARE_PERCENT := 80

  datatype GroupState =
    | Stable | PreparingRebalance | CompletingRebalance | Assigning | Reconciling | Empty | Dead | Unknown

  datatype Assignment = Assignment(topic: string, partitions: seq<int>)

  datatype Member = Member(id: string, clientId: string, host: string, assignments: seq<Assignment>)

  /** A position of the group, with the member that holds it and how far it lags. */
  datatype Position = Position(memberId: Option<string>, lag: Option<int>)

  datatype GroupDetail = GroupDetail(
    state: GroupState,
    members: seq<Member>,
    offsets: seq<Position>,
    totalLag: Option<int>,
    lagComplete: bool)

  datatype Finding =
    | NoMembers
    | Rebalancing
    | MoreMembersThanPartitions(members: nat, partitions: nat)
    | UnassignedPartitions(topic: string, unassigned: seq<int>)
    | LagOnOneMember(memberId: string, clientId: string, host: string, lag: int, totalLag: int)

  // ---------------------------------------------------------------------- lag by member

  /** The lag a member's positions add up to; unknown when any of them is. */
  function HeldLag(offsets: seq<Position>, id: string): Option<int>
    decreases |offsets|
  {
    if offsets == [] then Some(0)
    else
      var before, last := HeldLag(offsets[..|offsets| - 1], id), offsets[|offsets| - 1];
      if last.memberId != Some(id) then before
      else if before.None? || last.lag.None? then None
      else Some(before.value + last.lag.value)
  }

  function HeldBy(offsets: seq<Position>, id: string): seq<Position>
    decreases |offsets|
  {
    if offsets == [] then []
    else
      var last := offsets[|offsets| - 1];
      HeldBy(offsets[..|offsets| - 1], id) + if last.memberId == Some(id) then [last] else []
  }

  lemma SumOneMore(offsets: seq<Position>, last: Position)
    ensures Sum(offsets + [last]) == Sum(offsets) + if last.lag.Some? then last.lag.value else 0
  {
    assert (offsets + [last])[..|offsets|] == offsets;
  }

  /** The lag held is what the member's positions lag by together, and unknown when one of theirs is. */
  lemma {:induction false} HeldLagIsSum(offsets: seq<Position>, id: string)
    ensures HeldLag(offsets, id).None? <==>
              exists p :: p in offsets && p.memberId == Some(id) && p.lag.None?
    ensures HeldLag(offsets, id).Some? ==> HeldLag(offsets, id).value == Sum(HeldBy(offsets, id))
    decreases |offsets|
  {
    if offsets != [] {
      var front, last := offsets[..|offsets| - 1], offsets[|offsets| - 1];
      assert offsets == front + [last];
      HeldLagIsSum(front, id);
      assert forall p :: p in offsets <==> p in front || p == last;
      if last.memberId == Some(id) {
        SumOneMore(HeldBy(front, id), last);
        assert HeldBy(offsets, id) == HeldBy(front, id) + [last];
      } else {
        assert HeldBy(offsets, id) == HeldBy(front, id) + [] == HeldBy(front, id);
      }
    }
  }

  function MemberLag(group: GroupDetail, member: Member): Option<int> {
    if group.totalLag.None? then None else HeldLag(group.offsets, member.id)
  }

  ghost predicate Tallies(held: map<string, Option<int>>, offsets: seq<Position>) {
    forall id :: (if id in held then held[id] else Some(0)) == HeldLag(offsets, id)
  }

  method MemberLags(group: GroupDetail) returns (lags: seq<Option<int>>)
    ensures |lags| == |group.members|
    ensures forall i | 0 <= i < |lags| :: lags[i] == MemberLag(group, group.members[i])
  {
    var held: map<string, Option<int>> := map[];
    for i := 0 to |group.offsets|
      invariant Tallies(held, group.offsets[..i])
    {
      var offset := group.offsets[i];
      assert group.offsets[..i + 1][..i] == group.offsets[..i];
      if offset.memberId.Some? {
        var id := offset.memberId.value;
        var before := if id in held then held[id] else Some(0);
        var lag := if before.Some? && offset.lag.Some? then Some(before.value + offset.lag.value) else None;
        held := held[id := lag];
      }
    }
    assert group.offsets[..|group.offsets|] == group.offsets;
    lags := [];
    for i := 0 to |group.members|
      invariant |lags| == i && forall j | 0 <= j < i :: lags[j] == MemberLag(group, group.members[j])
    {
      var id := group.members[i].id;
      var lag := if id in held then held[id] else Some(0);
      lags := lags + [if group.totalLag.Some? then lag else None];
    }
  }

  // ------------------------------------------------------------------ lag on one member

  /** The member holds at least the share of the total worth naming. */
  predicate HoldsMost(group: GroupDetail, member: Member) {
    && group.totalLag.Some? && MemberLag(group, member).Some?
    && MemberLag(group, member).value * 100 >= group.totalLag.value * 80
  }

  predicate WorthNaming(group: GroupDetail) {
    group.totalLag.Some? && group.lagComplete && |group.members| >= 2 && group.totalLag.value >= 1000
  }

  /** The last of the members with the most lag, among those whose lag is known. */
  ghost predicate IsLastGreatest(group: GroupDetail, upto: nat, i: nat)
    requires upto <= |group.members|
  {
    && i < upto && MemberLag(group, group.members[i]).Some?
    && (forall j | 0 <= j < upto && MemberLag(group, group.members[j]).Some? ::
          MemberLag(group, group.members[j]).value <= MemberLag(group, group.members[i]).value)
    && (forall j | i < j < upto && MemberLag(group, group.members[j]).Some? ::
          MemberLag(group, group.members[j]).value < MemberLag(group, group.members[i]).value)
  }

  method LastGreatest(group: GroupDetail) returns (greatest: Option<nat>, lag: int)
    ensures greatest.Some? ==> IsLastGreatest(group, |group.members|, greatest.value)
    ensures greatest.Some? ==> MemberLag(group, group.members[greatest.value]) == Some(lag)
    ensures greatest.None? ==> forall j | 0 <= j < |group.members| :: MemberLag(group, group.members[j]).None?
  {
    var lags := MemberLags(group);
    greatest, lag := None, 0;
    for i := 0 to |group.members|
      invariant greatest.Some? ==> IsLastGreatest(group, i, greatest.value) && lags[greatest.value] == Some(lag)
      invariant greatest.None? ==> forall j | 0 <= j < i :: MemberLag(group, group.members[j]).None?
    {
      if lags[i].Some? && (greatest.None? || lag <= lags[i].value) {
        greatest, lag := Some(i), lags[i].value;
      }
    }
  }

  /** Names a member exactly when the lag is worth naming and some member holds most of it. */
  method LagOnOne(group: GroupDetail, shorten: string -> string) returns (finding: Option<Finding>)
    ensures finding.Some? <==>
              WorthNaming(group) && exists i :: 0 <= i < |group.members| && HoldsMost(group, group.members[i])
    ensures finding.Some? ==> exists i: nat ::
              && IsLastGreatest(group, |group.members|, i) && HoldsMost(group, group.members[i])
              && finding.value == NamedMember(group, group.members[i], shorten)
  {
    if group.totalLag.None? || !group.lagComplete { return None; }
    var total := group.totalLag.value;
    if |group.members| < 2 || total < LAG_WORTH_NAMING { return None; }
    var greatest, lag := LastGreatest(group);
    if greatest.None? { return None; }
    if lag * 100 < total * ONE_MEMBER_SHARE_PERCENT { return None; }
    var Member(id, clientId, host, _) := group.members[greatest.value];
    finding := Some(LagOnOneMember(shorten(id), shorten(clientId), shorten(host), lag, total));
  }

  function NamedMember(group: GroupDetail, member: Member, shorten: string -> string): (finding: Finding)
    requires HoldsMost(group, member)
    ensures finding.LagOnOneMember?
  {
    LagOnOneMember(
      shorten(member.id), shorten(member.clientId), shorten(member.host),
      MemberLag(group, member).value, group.totalLag.value)
  }

  // ------------------------------------------------------------- one member at the most

  function Sum(offsets: seq<Position>): int
    decreases |offsets|
  {
    if offsets == [] then 0
    else
      var last := offsets[|offsets| - 1];
      Sum(offsets[..|offsets| - 1]) + if last.lag.Some? then last.lag.value else 0
  }

  /** No position lags by less than nothing. */
  ghost predicate NonNegative(offsets: seq<Position>) {
    forall p | p in offsets && p.lag.Some? :: p.lag.value >= 0
  }

  lemma {:induction false} TwoMembersShare(offsets: seq<Position>, left: string, right: string)
    requires left != right && NonNegative(offsets)
    requires HeldLag(offsets, left).Some? && HeldLag(offsets, right).Some?
    ensures HeldLag(offsets, left).value >= 0 && HeldLag(offsets, right).value >= 0
    ensures HeldLag(offsets, left).value + HeldLag(offsets, right).value <= Sum(offsets)
    decreases |offsets|
  {
    if offsets != [] {
      var front, last := offsets[..|offsets| - 1], offsets[|offsets| - 1];
      assert last in offsets && forall p | p in front :: p in offsets;
      TwoMembersShare(front, left, right);
    }
  }

  /** When the positions add up to the total, no two members can both hold most of it. */
  lemma OnlyOneHoldsMost(group: GroupDetail, i: nat, j: nat)
    requires i < |group.members| && j < |group.members| && group.members[i].id != group.members[j].id
    requires WorthNaming(group) && NonNegative(group.offsets) && Sum(group.offsets) == group.totalLag.value
    requires HoldsMost(group, group.members[i])
    ensures !HoldsMost(group, group.members[j])
  {
    if MemberLag(group, group.members[j]).Some? {
      TwoMembersShare(group.offsets, group.members[i].id, group.members[j].id);
    }
  }

  // ------------------------------------------------------------------------ assignments

  /** The partitions each topic known to the cluster has. */
  type Topics = map<string, seq<int>>

  type Assigned = map<string, set<int>>

  /** Every assignment of every member, in order. */
  function Assignments(members: seq<Member>): seq<Assignment>
    decreases members
  {
    if members == [] then [] else members[0].assignments + Assignments(members[1..])
  }

  predicate IsAssigned(assignments: seq<Assignment>, topic: string, partition: int) {
    exists a :: a in assignments && a.topic == topic && partition in a.partitions
  }

  predicate IsConsumed(assignments: seq<Assignment>, topic: string) {
    exists a :: a in assignments && a.topic == topic
  }

  ghost predicate Holds(held: Assigned, assignments: seq<Assignment>) {
    && (forall t :: t in held <==> IsConsumed(assignments, t))
    && (forall t, p | t in held :: p in held[t] <==> IsAssigned(assignments, t, p))
  }

  lemma AssignedIsConsumed(assignments: seq<Assignment>, t: string, p: int)
    ensures IsAssigned(assignments, t, p) ==> IsConsumed(assignments, t)
  {
    if IsAssigned(assignments, t, p) {
      var a :| a in assignments && a.topic == t && p in a.partitions;
    }
  }

  lemma HoldsGrows(held: Assigned, assignments: seq<Assignment>, a: Assignment)
    requires Holds(held, assignments)
    ensures Holds(held[a.topic := (if a.topic in held then held[a.topic] else {}) + set p | p in a.partitions],
                  assignments + [a])
  {
    var after := held[a.topic := (if a.topic in held then held[a.topic] else {}) + set p | p in a.partitions];
    forall t ensures IsConsumed(assignments + [a], t) <==> IsConsumed(assignments, t) || t == a.topic {
      ConsumedGrows(assignments, a, t);
    }
    forall t, p ensures IsAssigned(assignments + [a], t, p) <==>
      IsAssigned(assignments, t, p) || (t == a.topic && p in a.partitions)
    {
      AssignedGrows(assignments, a, t, p);
    }
    forall t, p | t in after ensures p in after[t] <==> IsAssigned(assignments + [a], t, p) {
      AssignedIsConsumed(assignments, t, p);
    }
  }

  lemma ConsumedGrows(assignments: seq<Assignment>, a: Assignment, t: string)
    ensures IsConsumed(assignments + [a], t) <==> IsConsumed(assignments, t) || t == a.topic
  {
    assert forall b :: b in assignments + [a] <==> b in assignments || b == a;
  }

  lemma AssignedGrows(assignments: seq<Assignment>, a: Assignment, t: string, p: int)
    ensures IsAssigned(assignments + [a], t, p) <==>
              IsAssigned(assignments, t, p) || (t == a.topic && p in a.partitions)
  {
    assert forall b :: b in assignments + [a] <==> b in assignments || b == a;
  }

  method CollectAssigned(members: seq<Member>) returns (held: Assigned)
    ensures Holds(held, Assignments(members))
  {
    var assignments := Assignments(members);
    held := map[];
    for i := 0 to |assignments|
      invariant Holds(held, assignments[..i])
    {
      var a := assignments[i];
      HoldsGrows(held, assignments[..i], a);
      held := held[a.topic := (if a.topic in held then held[a.topic] else {}) + set p | p in a.partitions];
      assert assignments[..i + 1] == assignments[..i] + [a];
    }
    assert assignments[..|assignments|] == assignments;
  }

  /** The topics assigned, in order. */
  ghost predicate IsTopicList(topics: seq<string>, held: Assigned) {
    && (forall i, j | 0 <= i < j < |topics| :: TextBelow(topics[i], topics[j]))
    && (forall t :: t in topics <==> t in held)
  }

  method TopicList(held: Assigned) returns (topics: seq<string>)
    ensures IsTopicList(topics, held)
  {
    var keys: seq<TopicPartition> := [];
    var left := held.Keys;
    while left != {}
      invariant left <= held.Keys
      invariant forall k :: k in keys <==> k.topic in held.Keys - left && k.partition == 0
    {
      var topic :| topic in left;
      keys := keys + [TopicPartition(topic, 0)];
      left := left - {topic};
    }
    var sorted := SortAndDedup(keys);
    topics := seq(|sorted|, i requires 0 <= i < |sorted| => sorted[i].topic);
    forall i, j | 0 <= i < j < |topics| ensures TextBelow(topics[i], topics[j]) {
      assert sorted[i] in keys && sorted[j] in keys;
      assert Below(sorted[i], sorted[j]);
    }
    forall t | t in held ensures t in topics {
      assert TopicPartition(t, 0) in keys;
      var i :| 0 <= i < |sorted| && sorted[i] == TopicPartition(t, 0);
      assert topics[i] == t;
    }
    forall t | t in topics ensures t in held {
      var i :| 0 <= i < |topics| && topics[i] == t;
      assert sorted[i] in keys;
    }
  }

  /** The partitions of a list that are not held, in the list's order. */
  function Missing(partitions: seq<int>, held: set<int>): seq<int>
    decreases |partitions|
  {
    if partitions == [] then []
    else
      var last := partitions[|partitions| - 1];
      Missing(partitions[..|partitions| - 1], held) + if last in held then [] else [last]
  }

  lemma {:induction false} MissingExactly(partitions: seq<int>, held: set<int>, p: int)
    ensures p in Missing(partitions, held) <==> p in partitions && p !in held
    decreases |partitions|
  {
    if partitions != [] {
      var front, last := partitions[..|partitions| - 1], partitions[|partitions| - 1];
      assert partitions == front + [last];
      MissingExactly(front, held, p);
    }
  }

  /** What is missing keeps the list's order: one more at the list's end comes last, unless it is held. */
  lemma MissingKeepsOrder(partitions: seq<int>, last: int, held: set<int>)
    ensures Missing(partitions + [last], held) == Missing(partitions, held) + if last in held then [] else [last]
    ensures Missing([], held) == []
  {
    assert (partitions + [last])[..|partitions|] == partitions;
  }

  function UnassignedOf(topic: string, partitions: seq<int>, held: set<int>): seq<Finding> {
    var missing := Missing(partitions, held);
    if missing == [] then [] else [UnassignedPartitions(topic, missing)]
  }

  function UnassignedIn(topics: seq<string>, known: Topics, held: Assigned): seq<Finding>
    requires forall t | t in topics :: t in held
    decreases |topics|
  {
    if topics == [] then []
    else
      var t := topics[|topics| - 1];
      UnassignedIn(topics[..|topics| - 1], known, held)
      + if t in known then UnassignedOf(t, known[t], held[t]) else []
  }

  function PartitionCount(topics: seq<string>, known: Topics): nat
    decreases |topics|
  {
    if topics == [] then 0
    else
      var t := topics[|topics| - 1];
      PartitionCount(topics[..|topics| - 1], known) + if t in known then |known[t]| else 0
  }

  /** Every partition of the known topics, told apart by where it stands in its topic's list. */
  function Places(topics: seq<string>, known: Topics): set<(string, int)> {
    set t, i | t in topics && t in known && 0 <= i < |known[t]| :: (t, i)
  }

  function PlacesOf(topic: string, n: nat): set<(string, int)> {
    set i | 0 <= i < n :: (topic, i)
  }

  lemma {:induction false} PlacesCounted(topic: string, n: nat)
    ensures |PlacesOf(topic, n)| == n
  {
    if n > 0 {
      PlacesCounted(topic, n - 1);
      assert PlacesOf(topic, n) == PlacesOf(topic, n - 1) + {(topic, n - 1)};
    }
  }

  /** The partitions counted are all those of the known topics, each once. */
  lemma {:induction false} CountsEveryPartition(topics: seq<string>, known: Topics)
    requires forall i, j | 0 <= i < j < |topics| :: topics[i] != topics[j]
    ensures PartitionCount(topics, known) == |Places(topics, known)|
    decreases |topics|
  {
    if topics != [] {
      var front, t := topics[..|topics| - 1], topics[|topics| - 1];
      assert topics == front + [t];
      CountsEveryPartition(front, known);
      PlacesOneMore(front, t, known);
      PlacesCounted(t, if t in known then |known[t]| else 0);
    }
  }

  lemma PlacesOneMore(topics: seq<string>, t: string, known: Topics)
    requires t !in topics
    ensures var more := PlacesOf(t, if t in known then |known[t]| else 0);
            Places(topics + [t], known) == Places(topics, known) + more && Places(topics, known) !! more
  {
  }

  function Crowding(group: GroupDetail, topics: seq<string>, known: Topics): seq<Finding> {
    if topics != [] && AllKnown(topics, known) && |group.members| > PartitionCount(topics, known)
    then [MoreMembersThanPartitions(|group.members|, PartitionCount(topics, known))]
    else []
  }

  ghost predicate IsLagFinding(group: GroupDetail, shorten: string -> string, lag: seq<Finding>) {
    && |lag| <= 1
    && (lag != [] <==> WorthNaming(group) && exists i :: 0 <= i < |group.members| && HoldsMost(group, group.members[i]))
    && (lag != [] ==> exists i: nat ::
          && IsLastGreatest(group, |group.members|, i) && HoldsMost(group, group.members[i])
          && lag[0] == NamedMember(group, group.members[i], shorten))
  }

  predicate AllKnown(topics: seq<string>, known: Topics) {
    forall t | t in topics :: t in known
  }

  lemma OneMoreTopic(topics: seq<string>, t: string, known: Topics, held: Assigned)
    requires t in held && forall u | u in topics :: u in held
    ensures UnassignedIn(topics + [t], known, held) ==
              UnassignedIn(topics, known, held) + if t in known then UnassignedOf(t, known[t], held[t]) else []
    ensures PartitionCount(topics + [t], known) ==
              PartitionCount(topics, known) + if t in known then |known[t]| else 0
    ensures AllKnown(topics + [t], known) <==> AllKnown(topics, known) && t in known
  {
    assert (topics + [t])[..|topics|] == topics;
  }

  method CheckPartitions(topic: string, partitions: seq<int>, held: set<int>, before: seq<Finding>)
    returns (unassigned: seq<Finding>)
    ensures unassigned == before + UnassignedOf(topic, partitions, held)
  {
    var missing := Missing(partitions, held);
    unassigned := before;
    if missing != [] { unassigned := unassigned + [UnassignedPartitions(topic, missing)]; }
  }

  method CheckTopics(topics: seq<string>, known: Topics, held: Assigned)
    returns (unassigned: seq<Finding>, partitions: nat, everyTopicKnown: bool)
    requires forall t | t in topics :: t in held
    ensures unassigned == UnassignedIn(topics, known, held)
    ensures partitions == PartitionCount(topics, known)
    ensures everyTopicKnown == AllKnown(topics, known)
  {
    unassigned, partitions, everyTopicKnown := [], 0, true;
    ghost var seen: seq<string> := [];
    for i := 0 to |topics|
      invariant seen == topics[..i]
      invariant unassigned == UnassignedIn(seen, known, held)
      invariant partitions == PartitionCount(seen, known)
      invariant everyTopicKnown == AllKnown(seen, known)
    {
      var t := topics[i];
      OneMoreTopic(seen, t, known, held);
      seen := seen + [t];
      if t !in known {
        everyTopicKnown := false;
        continue;
      }
      partitions := partitions + |known[t]|;
      unassigned := CheckPartitions(t, known[t], held[t], unassigned);
    }
    assert seen == topics;
  }

  /** What is found of a stable group: crowding first, then lag, then what is unassigned topic by topic. */
  ghost predicate AreFindings(
      findings: seq<Finding>, group: GroupDetail, known: Topics, held: Assigned, topics: seq<string>, lag: seq<Finding>)
  {
    && Holds(held, Assignments(group.members)) && IsTopicList(topics, held)
    && (forall f | f in lag :: f.LagOnOneMember?)
    && findings == Crowding(group, topics, known) + lag + UnassignedIn(topics, known, held)
  }

  method CheckCrowding(group: GroupDetail, known: Topics, topics: seq<string>, partitions: nat, everyTopicKnown: bool)
    returns (crowding: seq<Finding>)
    requires partitions == PartitionCount(topics, known)
    requires everyTopicKnown == AllKnown(topics, known)
    ensures crowding == Crowding(group, topics, known)
  {
    crowding := [];
    if everyTopicKnown && topics != [] && |group.members| > partitions {
      crowding := [MoreMembersThanPartitions(|group.members|, partitions)];
    }
  }

  method StableFindings(group: GroupDetail, known: Topics, shorten: string -> string)
    returns (findings: seq<Finding>, ghost held: Assigned, ghost topics: seq<string>, ghost lag: seq<Finding>)
    ensures IsLagFinding(group, shorten, lag)
    ensures AreFindings(findings, group, known, held, topics, lag)
  {
    var collected := CollectAssigned(group.members);
    var inOrder := TopicList(collected);
    var unassigned, partitions, everyTopicKnown := CheckTopics(inOrder, known, collected);
    var crowding := CheckCrowding(group, known, inOrder, partitions, everyTopicKnown);
    var one := LagOnOne(group, shorten);
    held, topics, lag := collected, inOrder, if one.Some? then [one.value] else [];
    findings := crowding + (if one.Some? then [one.value] else []) + unassigned;
  }

  method All(group: GroupDetail, known: Topics, shorten: string -> string) returns (findings: seq<Finding>)
    ensures group.members == [] ==> findings == [NoMembers]
    ensures group.members != [] && group.state in {PreparingRebalance, CompletingRebalance, Assigning, Reconciling} ==>
              findings == [Rebalancing]
    ensures group.members != [] && group.state in {Empty, Dead, Unknown} ==> findings == []
    ensures group.members != [] && group.state == Stable ==>
              exists held, topics, lag ::
                IsLagFinding(group, shorten, lag) && AreFindings(findings, group, known, held, topics, lag)
  {
    if group.members == [] { return [NoMembers]; }
    match group.state {
      case Stable =>
      case PreparingRebalance | CompletingRebalance | Assigning | Reconciling => return [Rebalancing];
      case Empty | Dead | Unknown => return [];
    }
    ghost var held, topics, lag;
    findings, held, topics, lag := StableFindings(group, known, shorten);
  }

  /** A topic's finding names a partition exactly when the consumed topic has it and no member holds it. */
  lemma {:induction false} NamesExactlyTheUnassigned(
      topics: seq<string>, known: Topics, held: Assigned, assignments: seq<Assignment>, t: string, p: int)
    requires Holds(held, assignments) && forall u | u in topics :: u in held
    ensures (exists f :: f in UnassignedIn(topics, known, held)
               && f.UnassignedPartitions? && f.topic == t && p in f.unassigned) <==>
              t in topics && t in known && p in known[t] && !IsAssigned(assignments, t, p)
    ensures forall f | f in UnassignedIn(topics, known, held) :: f.UnassignedPartitions? && f.unassigned != []
    decreases |topics|
  {
    if topics != [] {
      var front, last := topics[..|topics| - 1], topics[|topics| - 1];
      assert topics == front + [last];
      NamesExactlyTheUnassigned(front, known, held, assignments, t, p);
      if last in known { MissingExactly(known[last], held[last], p); }
    }
  }

  // ------------------------------------------------------- findings from the members alone

  /** Some member is assigned a topic, or one of its partitions. */
  ghost predicate Consumes(members: seq<Member>, t: string) {
    exists m, a :: m in members && a in m.assignments && a.topic == t
  }

  ghost predicate Assigns(members: seq<Member>, t: string, p: int) {
    exists m, a :: m in members && a in m.assignments && a.topic == t && p in a.partitions
  }

  lemma {:induction false} AssignmentsAreTheMembers(members: seq<Member>, a: Assignment)
    ensures a in Assignments(members) <==> exists m :: m in members && a in m.assignments
    decreases members
  {
    if members != [] {
      AssignmentsAreTheMembers(members[1..], a);
      assert members == [members[0]] + members[1..];
    }
  }

  lemma AssignedByMembers(members: seq<Member>, t: string, p: int)
    ensures IsConsumed(Assignments(members), t) <==> Consumes(members, t)
    ensures IsAssigned(Assignments(members), t, p) <==> Assigns(members, t, p)
  {
    forall a ensures a in Assignments(members) <==> exists m :: m in members && a in m.assignments {
      AssignmentsAreTheMembers(members, a);
    }
  }

  lemma InOneOfThree(one: seq<Finding>, other: seq<Finding>, third: seq<Finding>, f: Finding)
    ensures f in one + other + third <==> f in one || f in other || f in third
  {
  }

  lemma {:induction false} UnassignedKind(topics: seq<string>, known: Topics, held: Assigned, f: Finding)
    requires forall u | u in topics :: u in held
    ensures f in UnassignedIn(topics, known, held) ==> f.UnassignedPartitions?
    decreases |topics|
  {
    if topics != [] { UnassignedKind(topics[..|topics| - 1], known, held, f); }
  }

  lemma CrowdingKind(group: GroupDetail, topics: seq<string>, known: Topics, f: Finding)
    ensures f in Crowding(group, topics, known) ==> f.MoreMembersThanPartitions?
  {
  }

  /** The kind of a finding tells where it comes from. */
  lemma FindingsByKind(
      findings: seq<Finding>, group: GroupDetail, known: Topics,
      held: Assigned, topics: seq<string>, lag: seq<Finding>, f: Finding)
    requires AreFindings(findings, group, known, held, topics, lag)
    ensures f in findings && f.MoreMembersThanPartitions? <==> f in Crowding(group, topics, known)
    ensures f in findings && f.UnassignedPartitions? <==> f in UnassignedIn(topics, known, held)
  {
    UnassignedKind(topics, known, held, f);
    CrowdingKind(group, topics, known, f);
    InOneOfThree(Crowding(group, topics, known), lag, UnassignedIn(topics, known, held), f);
  }

  /** A partition is reported exactly when its topic is consumed and known, has it, and no member holds it. */
  lemma ReportsExactlyTheUnassigned(
      findings: seq<Finding>, group: GroupDetail, known: Topics,
      held: Assigned, topics: seq<string>, lag: seq<Finding>, t: string, p: int)
    requires AreFindings(findings, group, known, held, topics, lag)
    ensures (exists f :: f in findings && f.UnassignedPartitions? && f.topic == t && p in f.unassigned) <==>
              Consumes(group.members, t) && t in known && p in known[t] && !Assigns(group.members, t, p)
  {
    forall f ensures f in findings && f.UnassignedPartitions? <==> f in UnassignedIn(topics, known, held) {
      FindingsByKind(findings, group, known, held, topics, lag, f);
    }
    AssignedByMembers(group.members, t, p);
    UnassignedByAssignment(group.members, known, held, topics, t, p);
  }

  lemma UnassignedByAssignment(
      members: seq<Member>, known: Topics, held: Assigned, topics: seq<string>, t: string, p: int)
    requires Holds(held, Assignments(members)) && IsTopicList(topics, held)
    ensures (exists f :: f in UnassignedIn(topics, known, held)
               && f.UnassignedPartitions? && f.topic == t && p in f.unassigned) <==>
              IsConsumed(Assignments(members), t) && t in known && p in known[t]
              && !IsAssigned(Assignments(members), t, p)
  {
    NamesExactlyTheUnassigned(topics, known, held, Assignments(members), t, p);
  }

  /** Every partition of a consumed topic, told apart by where it stands in its topic's list. */
  ghost function PlacesConsumed(members: seq<Member>, known: Topics): set<(string, int)> {
    set t, i | t in known && Consumes(members, t) && 0 <= i < |known[t]| :: (t, i)
  }

  lemma CountsTheConsumed(group: GroupDetail, known: Topics, held: Assigned, topics: seq<string>)
    requires Holds(held, Assignments(group.members)) && IsTopicList(topics, held)
    ensures forall t :: t in topics <==> Consumes(group.members, t)
    ensures PartitionCount(topics, known) == |PlacesConsumed(group.members, known)|
  {
    forall t ensures t in topics <==> Consumes(group.members, t) {
      AssignedByMembers(group.members, t, 0);
    }
    forall i, j | 0 <= i < j < |topics| ensures topics[i] != topics[j] {
      TextBelowIsStrict(topics[i], topics[j]);
    }
    CountsEveryPartition(topics, known);
    assert Places(topics, known) == PlacesConsumed(group.members, known);
  }

  /**
   * Crowding is found exactly when topics are consumed, all of them known, and the members are
   * more than the partitions of those topics; it then tells both numbers.
   */
  lemma FindsExactlyTheCrowded(
      findings: seq<Finding>, group: GroupDetail, known: Topics,
      held: Assigned, topics: seq<string>, lag: seq<Finding>, f: Finding)
    requires AreFindings(findings, group, known, held, topics, lag)
    ensures var places := |PlacesConsumed(group.members, known)|;
            f in findings && f.MoreMembersThanPartitions? <==>
              && (exists t :: Consumes(group.members, t))
              && (forall t | Consumes(group.members, t) :: t in known)
              && |group.members| > places
              && f == MoreMembersThanPartitions(|group.members|, places)
  {
    FindingsByKind(findings, group, known, held, topics, lag, f);
    CountsTheConsumed(group, known, held, topics);
    assert topics != [] ==> Consumes(group.members, topics[0]);
  }
}
