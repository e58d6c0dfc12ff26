/** Who may do what: roles bound to groups, compiled to an index by group. */
module Access {
  import opened Sequences
  import opened SortedInts
  import opened Wrappers

  datatype Privilege =
    | Records | TopicConfigs | BrokerConfigs | SchemaText | Acls | CreateTopics | DeleteTopics
    | AlterTopicConfigs | AddPartitions | DeleteRecords | Produce | ResetOffsets | DeleteOffsets
    | DeleteGroups | RegisterSchemas | SetCompatibility | DeleteSchemas | CreateAcls | DeleteAcls
    | AlterQuotas | SetScramCredentials | DeleteScramCredentials | AlterBrokerConfigs

  const EVERY_PRIVILEGE: set<Privilege> := {
    Records, TopicConfigs, BrokerConfigs, SchemaText, Acls, CreateTopics, DeleteTopics,
    AlterTopicConfigs, AddPartitions, DeleteRecords, Produce, ResetOffsets, DeleteOffsets,
    DeleteGroups, RegisterSchemas, SetCompatibility, DeleteSchemas, CreateAcls, DeleteAcls,
    AlterQuotas, SetScramCredentials, DeleteScramCredentials, AlterBrokerConfigs
  }

  datatype ClusterScope = All | Only(names: set<string>) {
    predicate Contains(cluster: string) {
      match this
      case All => true
      case Only(names) => cluster in names
    }

    static function FromList(clusters: Option<seq<string>>): ClusterScope {
      match clusters
      case None => All
      case Some(names) => Only(set name | name in names)
    }
  }

  datatype Grant = Grant(role: string, privileges: set<Privilege>, scope: ClusterScope)

  datatype Binding = Binding(groups: seq<string>, clusters: Option<seq<string>>)

  datatype Role = Role(name: string, privileges: seq<Privilege>, bindings: seq<Binding>)

  datatype EffectiveAccess = Unrestricted | Granted(grants: seq<Grant>) {
    /** The privileges held on a cluster, or none at all when no grant covers it. */
    function PrivilegesFor(cluster: string): Option<set<Privilege>> {
      match this
      case Unrestricted => Some(EVERY_PRIVILEGE)
      case Granted(grants) => Union(grants, cluster)
    }
  }

  function Union(grants: seq<Grant>, cluster: string): Option<set<Privilege>> {
    if grants == [] then None
    else
      var held, last := Union(grants[..|grants| - 1], cluster), grants[|grants| - 1];
      if !last.scope.Contains(cluster) then held
      else Some((if held.Some? then held.value else {}) + last.privileges)
  }

  // -------------------------------------------------------------- the roles directly

  /** A binding of the file, with the grant it gives. */
  datatype Bound = Bound(groups: seq<string>, grant: Grant)

  function GrantOf(role: Role, binding: Binding): Grant {
    Grant(role.name, (set p | p in role.privileges), ClusterScope.FromList(binding.clusters))
  }

  function BoundTo(role: Role, bindings: seq<Binding>): seq<Bound> {
    seq(|bindings|, i requires 0 <= i < |bindings| => Bound(bindings[i].groups, GrantOf(role, bindings[i])))
  }

  /** Every binding of every role, in file order. */
  function AllBound(roles: seq<Role>): seq<Bound> {
    if roles == [] then []
    else AllBound(roles[..|roles| - 1]) + BoundTo(roles[|roles| - 1], roles[|roles| - 1].bindings)
  }

  predicate Names(bound: Bound, groups: seq<string>) {
    exists g :: g in groups && g in bound.groups
  }

  /** The grants of the bindings that name one of the groups, each once, in file order. */
  function Direct(bound: seq<Bound>, groups: seq<string>): seq<Grant> {
    if bound == [] then []
    else
      Direct(bound[..|bound| - 1], groups)
      + if Names(bound[|bound| - 1], groups) then [bound[|bound| - 1].grant] else []
  }

  // ---------------------------------------------------------------- the compiled index

  datatype RoleTable = RoleTable(grants: seq<Grant>, byGroup: map<string, seq<int>>) {
    function Indexes(group: string): seq<int> {
      if group in byGroup then byGroup[group] else []
    }
  }

  predicate Finds(table: RoleTable, group: string, i: int) {
    i in table.Indexes(group)
  }

  predicate NamesGroup(bound: seq<Bound>, group: string, i: int) {
    0 <= i < |bound| && group in bound[i].groups
  }

  ghost predicate HoldsGrants(table: RoleTable, bound: seq<Bound>) {
    |table.grants| == |bound| && forall i | 0 <= i < |bound| :: table.grants[i] == bound[i].grant
  }

  /** The index finds exactly the bindings that name a group. */
  ghost predicate Compiled(table: RoleTable, bound: seq<Bound>) {
    HoldsGrants(table, bound) && forall g, i :: Finds(table, g, i) <==> NamesGroup(bound, g, i)
  }

  /** Part of a binding is indexed: its first groups, but not yet its grant. */
  ghost predicate Indexing(table: RoleTable, bound: seq<Bound>, groups: seq<string>) {
    && HoldsGrants(table, bound)
    && forall g, i :: Finds(table, g, i) <==> NamesGroup(bound, g, i) || (i == |bound| && g in groups)
  }

  method IndexBinding(before: RoleTable, role: Role, binding: Binding, ghost bound: seq<Bound>)
    returns (table: RoleTable)
    requires Compiled(before, bound)
    ensures Compiled(table, bound + [Bound(binding.groups, GrantOf(role, binding))])
  {
    var byGroup := before.byGroup;
    for j := 0 to |binding.groups|
      invariant Indexing(RoleTable(before.grants, byGroup), bound, binding.groups[..j])
    {
      var group := binding.groups[j];
      ghost var was := RoleTable(before.grants, byGroup);
      byGroup := byGroup[group := (if group in byGroup then byGroup[group] else []) + [|before.grants|]];
      assert binding.groups[..j + 1] == binding.groups[..j] + [group];
      IndexGrows(was, RoleTable(before.grants, byGroup), bound, binding.groups[..j], group);
    }
    assert binding.groups[..|binding.groups|] == binding.groups;
    table := RoleTable(before.grants + [GrantOf(role, binding)], byGroup);
    IndexingCompletes(RoleTable(before.grants, byGroup), table, bound, Bound(binding.groups, GrantOf(role, binding)));
  }

  lemma IndexGrows(was: RoleTable, now: RoleTable, bound: seq<Bound>, groups: seq<string>, group: string)
    requires Indexing(was, bound, groups)
    requires now == was.(byGroup := was.byGroup[group := was.Indexes(group) + [|was.grants|]])
    ensures Indexing(now, bound, groups + [group])
  {
    forall g, i ensures Finds(now, g, i) <==> Finds(was, g, i) || (g == group && i == |bound|) {
      if g == group { assert now.Indexes(g) == was.Indexes(g) + [|was.grants|]; }
      else { assert now.Indexes(g) == was.Indexes(g); }
    }
    forall g ensures g in groups + [group] <==> g in groups || g == group {
    }
  }

  lemma IndexingCompletes(was: RoleTable, now: RoleTable, bound: seq<Bound>, last: Bound)
    requires Indexing(was, bound, last.groups)
    requires now == was.(grants := was.grants + [last.grant])
    ensures Compiled(now, bound + [last])
  {
    var all := bound + [last];
    forall g, i ensures Finds(now, g, i) <==> NamesGroup(all, g, i) {
      assert Finds(now, g, i) <==> Finds(was, g, i);
      assert NamesGroup(all, g, i) <==> NamesGroup(bound, g, i) || (i == |bound| && g in last.groups);
    }
  }

  method Compile(roles: seq<Role>) returns (table: RoleTable)
    ensures Compiled(table, AllBound(roles))
  {
    table := RoleTable([], map[]);
    for i := 0 to |roles|
      invariant Compiled(table, AllBound(roles[..i]))
    {
      var role := roles[i];
      ghost var earlier := AllBound(roles[..i]);
      assert earlier + BoundTo(role, role.bindings[..0]) == earlier;
      for j := 0 to |role.bindings|
        invariant Compiled(table, earlier + BoundTo(role, role.bindings[..j]))
      {
        table := IndexBinding(table, role, role.bindings[j], earlier + BoundTo(role, role.bindings[..j]));
        OneMoreBound(earlier, role, j);
      }
      assert role.bindings[..|role.bindings|] == role.bindings;
      assert roles[..i + 1][..i] == roles[..i];
    }
    assert roles[..|roles|] == roles;
  }

  lemma OneMoreBound(earlier: seq<Bound>, role: Role, j: nat)
    requires j < |role.bindings|
    ensures earlier + BoundTo(role, role.bindings[..j + 1])
              == earlier + BoundTo(role, role.bindings[..j])
                 + [Bound(role.bindings[j].groups, GrantOf(role, role.bindings[j]))]
  {
  }

  // ------------------------------------------------------------------------ resolving

  ghost function Matched(bound: seq<Bound>, groups: seq<string>): set<int> {
    set i | 0 <= i < |bound| && Names(bound[i], groups)
  }

  /** The grants at some indexes, in ascending order. */
  ghost function GrantsAt(grants: seq<Grant>, indexes: set<int>): seq<Grant>
    requires forall i | i in indexes :: 0 <= i < |grants|
    decreases |indexes|
  {
    if indexes == {} then []
    else [grants[Least(indexes)]] + GrantsAt(grants, indexes - {Least(indexes)})
  }

  lemma IndexesAreNamed(table: RoleTable, bound: seq<Bound>, group: string)
    requires Compiled(table, bound)
    ensures (set i | i in table.Indexes(group)) == set i | 0 <= i < |bound| && group in bound[i].groups
  {
    forall i ensures i in table.Indexes(group) <==> 0 <= i < |bound| && group in bound[i].groups {
      assert Finds(table, group, i) <==> NamesGroup(bound, group, i);
    }
  }

  method Match(table: RoleTable, groups: seq<string>, ghost bound: seq<Bound>) returns (matched: set<int>)
    requires Compiled(table, bound)
    ensures matched == Matched(bound, groups)
  {
    matched := {};
    for j := 0 to |groups|
      invariant matched == Matched(bound, groups[..j])
    {
      assert groups[..j + 1] == groups[..j] + [groups[j]];
      MatchedByOneMore(bound, groups[..j], groups[j]);
      IndexesAreNamed(table, bound, groups[j]);
      matched := matched + set i | i in table.Indexes(groups[j]);
    }
    assert groups[..|groups|] == groups;
  }

  lemma MatchedByOneMore(bound: seq<Bound>, groups: seq<string>, group: string)
    ensures Matched(bound, groups + [group])
              == Matched(bound, groups) + set i | 0 <= i < |bound| && group in bound[i].groups
  {
    forall i | 0 <= i < |bound|
      ensures Names(bound[i], groups + [group]) <==> Names(bound[i], groups) || group in bound[i].groups
    {
      NamesOneMore(bound[i], groups, group);
    }
  }

  lemma NamesOneMore(bound: Bound, groups: seq<string>, group: string)
    ensures Names(bound, groups + [group]) <==> Names(bound, groups) || group in bound.groups
  {
    if Names(bound, groups) {
      var g :| g in groups && g in bound.groups;
      assert g in groups + [group];
    }
    if group in bound.groups { assert group in groups + [group]; }
  }

  lemma {:induction false} GreatestComesLast(grants: seq<Grant>, indexes: set<int>, last: nat)
    requires last < |grants| && forall i | i in indexes :: 0 <= i < last
    ensures GrantsAt(grants, indexes + {last}) == GrantsAt(grants, indexes) + [grants[last]]
    decreases |indexes|
  {
    var all := indexes + {last};
    if indexes == {} {
      assert all == {last} && all - {last} == {};
    } else {
      var least := Least(indexes);
      assert Least(all) == least;
      assert all - {least} == indexes - {least} + {last};
      GreatestComesLast(grants, indexes - {least}, last);
      Assoc([grants[least]], GrantsAt(grants, indexes - {least}), [grants[last]]);
    }
  }

  lemma MatchedOneMore(front: seq<Bound>, last: Bound, groups: seq<string>)
    ensures Matched(front + [last], groups)
              == Matched(front, groups) + if Names(last, groups) then {|front|} else {}
  {
    var bound := front + [last];
    forall i: int ensures i in Matched(bound, groups)
      <==> i in Matched(front, groups) || (i == |front| && Names(last, groups))
    {
      if 0 <= i < |front| { assert bound[i] == front[i]; }
    }
  }

  /** The grants at the matching indexes, in ascending order, are the direct evaluation. */
  lemma {:induction false} DirectIsMatched(grants: seq<Grant>, bound: seq<Bound>, groups: seq<string>)
    requires |bound| <= |grants| && forall i | 0 <= i < |bound| :: grants[i] == bound[i].grant
    ensures GrantsAt(grants, Matched(bound, groups)) == Direct(bound, groups)
    decreases |bound|
  {
    if bound != [] {
      var front, last := bound[..|bound| - 1], bound[|bound| - 1];
      DirectIsMatched(grants, front, groups);
      assert bound == front + [last];
      MatchedOneMore(front, last, groups);
      if Names(last, groups) {
        GreatestComesLast(grants, Matched(front, groups), |front|);
      } else {
        assert Matched(front, groups) + {} == Matched(front, groups);
      }
    }
  }

  method Resolve(table: RoleTable, groups: seq<string>, ghost bound: seq<Bound>) returns (resolved: Option<seq<Grant>>)
    requires Compiled(table, bound)
    ensures resolved == if Direct(bound, groups) == [] then None else Some(Direct(bound, groups))
  {
    var matched := Match(table, groups, bound);
    var grants: seq<Grant> := [];
    var left := matched;
    DirectIsMatched(table.grants, bound, groups);
    while left != {}
      invariant left <= matched
      invariant grants + GrantsAt(table.grants, left) == Direct(bound, groups)
      decreases left
    {
      LeastExists(left);
      var index :| index in left && forall k | k in left :: index <= k;
      assert index == Least(left);
      Assoc(grants, [table.grants[index]], GrantsAt(table.grants, left - {index}));
      grants := grants + [table.grants[index]];
      left := left - {index};
    }
    assert grants + [] == grants;
    resolved := if grants == [] then None else Some(grants);
  }

  // ------------------------------------------------------------------ what it comes to

  datatype AccessPolicy = Open | BoundTo(table: RoleTable)

  method FromRoles(roles: Option<seq<Role>>) returns (policy: AccessPolicy)
    ensures policy.Open? <==> roles.None?
    ensures roles.Some? ==> Compiled(policy.table, AllBound(roles.value))
  {
    match roles
    case None => policy := Open;
    case Some(roles) =>
      var table := Compile(roles);
      policy := AccessPolicy.BoundTo(table);
  }

  /** The access a policy gives, evaluated on the role file itself. */
  function Admitted(roles: Option<seq<Role>>, groups: seq<string>): Option<EffectiveAccess> {
    match roles
    case None => Some(Unrestricted)
    case Some(roles) =>
      var grants := Direct(AllBound(roles), groups);
      if grants == [] then None else Some(Granted(grants))
  }

  method Admit(policy: AccessPolicy, groups: seq<string>, ghost roles: Option<seq<Role>>)
    returns (access: Option<EffectiveAccess>)
    requires policy.Open? <==> roles.None?
    requires roles.Some? ==> Compiled(policy.table, AllBound(roles.value))
    ensures access == Admitted(roles, groups)
  {
    match policy
    case Open => access := Some(Unrestricted);
    case BoundTo(table) =>
      var grants := Resolve(table, groups, AllBound(roles.value));
      access := if grants.None? then None else Some(Granted(grants.value));
  }

  /** Some binding names one of the groups and covers the cluster. */
  ghost predicate Covers(bound: seq<Bound>, groups: seq<string>, cluster: string) {
    exists b :: b in bound && Names(b, groups) && b.grant.scope.Contains(cluster)
  }

  /** Some binding that names one of the groups and covers the cluster gives the privilege. */
  ghost predicate Gives(bound: seq<Bound>, groups: seq<string>, cluster: string, privilege: Privilege) {
    exists b :: b in bound && Names(b, groups) && b.grant.scope.Contains(cluster) && privilege in b.grant.privileges
  }

  /** The privileges on a cluster are the union over exactly the bindings that name a group and cover it. */
  lemma {:induction false} PrivilegesAreTheUnion(bound: seq<Bound>, groups: seq<string>, cluster: string)
    ensures var held := Granted(Direct(bound, groups)).PrivilegesFor(cluster);
            && (held.Some? <==> Covers(bound, groups, cluster))
            && (held.Some? ==> forall p :: p in held.value <==> Gives(bound, groups, cluster, p))
    decreases |bound|
  {
    if bound != [] {
      var front, last := bound[..|bound| - 1], bound[|bound| - 1];
      PrivilegesAreTheUnion(front, groups, cluster);
      assert bound == front + [last];
      CoversOneMore(front, last, groups, cluster);
      UnionOneMore(Direct(front, groups), last.grant, cluster);
      assert Direct(front, groups) + [] == Direct(front, groups);
    }
  }

  lemma UnionOneMore(grants: seq<Grant>, last: Grant, cluster: string)
    ensures Union(grants + [last], cluster) ==
              if !last.scope.Contains(cluster) then Union(grants, cluster)
              else Some((if Union(grants, cluster).Some? then Union(grants, cluster).value else {}) + last.privileges)
  {
    assert (grants + [last])[..|grants|] == grants;
  }

  lemma CoversOneMore(front: seq<Bound>, last: Bound, groups: seq<string>, cluster: string)
    ensures var covers := Names(last, groups) && last.grant.scope.Contains(cluster);
            && (Covers(front + [last], groups, cluster) <==> Covers(front, groups, cluster) || covers)
            && forall p :: Gives(front + [last], groups, cluster, p) <==>
                 Gives(front, groups, cluster, p) || (covers && p in last.grant.privileges)
  {
    assert forall b :: b in front + [last] <==> b in front || b == last;
  }

  /** However the groups repeat or are ordered, the grants are the same. */
  lemma {:induction false} GroupOrderIsIrrelevant(bound: seq<Bound>, left: seq<string>, right: seq<string>)
    requires forall g :: g in left <==> g in right
    ensures Direct(bound, left) == Direct(bound, right)
    decreases |bound|
  {
    if bound != [] { GroupOrderIsIrrelevant(bound[..|bound| - 1], left, right); }
  }

  /** More groups never take a privilege away, nor hide a cluster. */
  lemma MoreGroupsKeepPrivileges(roles: Option<seq<Role>>, fewer: seq<string>, more: seq<string>, cluster: string)
    requires forall g | g in fewer :: g in more
    requires Admitted(roles, fewer).Some? && Admitted(roles, fewer).value.PrivilegesFor(cluster).Some?
    ensures Admitted(roles, more).Some? && Admitted(roles, more).value.PrivilegesFor(cluster).Some?
    ensures Admitted(roles, fewer).value.PrivilegesFor(cluster).value
              <= Admitted(roles, more).value.PrivilegesFor(cluster).value
  {
    if roles.Some? {
      var bound := AllBound(roles.value);
      PrivilegesAreTheUnion(bound, fewer, cluster);
      PrivilegesAreTheUnion(bound, more, cluster);
      var b :| b in bound && Names(b, fewer) && b.grant.scope.Contains(cluster);
      assert Names(b, more);
      forall p | Gives(bound, fewer, cluster, p) ensures Gives(bound, more, cluster, p) {
        var c :| c in bound && Names(c, fewer) && c.grant.scope.Contains(cluster) && p in c.grant.privileges;
        assert Names(c, more);
      }
    }
  }

  // ---------------------------------------------------------------- on the role file

  /** The binding lists one of the groups, and names no clusters or this one. */
  ghost predicate Admits(binding: Binding, groups: seq<string>, cluster: string) {
    && (exists g :: g in groups && g in binding.groups)
    && (binding.clusters.None? || cluster in binding.clusters.value)
  }

  ghost predicate RoleAdmits(role: Role, groups: seq<string>, cluster: string) {
    exists binding :: binding in role.bindings && Admits(binding, groups, cluster)
  }

  lemma {:induction false} BoundsAreBindings(roles: seq<Role>, b: Bound)
    ensures b in AllBound(roles) <==> exists role, binding ::
              role in roles && binding in role.bindings && b == Bound(binding.groups, GrantOf(role, binding))
    decreases |roles|
  {
    if roles != [] {
      var front, last := roles[..|roles| - 1], roles[|roles| - 1];
      assert roles == front + [last];
      BoundsAreBindings(front, b);
      var own := BoundTo(last, last.bindings);
      if b in own {
        var i :| 0 <= i < |own| && own[i] == b;
        assert last.bindings[i] in last.bindings && last in roles;
      }
      if binding :| binding in last.bindings && b == Bound(binding.groups, GrantOf(last, binding)) {
        var i :| 0 <= i < |last.bindings| && last.bindings[i] == binding;
        assert own[i] == b;
      }
      assert forall role :: role in roles <==> role in front || role == last;
    }
  }

  lemma GrantFollowsBinding(role: Role, binding: Binding, cluster: string, privilege: Privilege)
    ensures GrantOf(role, binding).scope.Contains(cluster) <==>
              binding.clusters.None? || cluster in binding.clusters.value
    ensures privilege in GrantOf(role, binding).privileges <==> privilege in role.privileges
    ensures GrantOf(role, binding).role == role.name
  {
  }

  lemma CoversOnRoles(roles: seq<Role>, groups: seq<string>, cluster: string)
    ensures Covers(AllBound(roles), groups, cluster) <==>
              exists role :: role in roles && RoleAdmits(role, groups, cluster)
  {
    if Covers(AllBound(roles), groups, cluster) {
      var b :| b in AllBound(roles) && Names(b, groups) && b.grant.scope.Contains(cluster);
      BoundsAreBindings(roles, b);
      var role, binding :|
        role in roles && binding in role.bindings && b == Bound(binding.groups, GrantOf(role, binding));
      GrantFollowsBinding(role, binding, cluster, Records);
      assert Admits(binding, groups, cluster) && RoleAdmits(role, groups, cluster);
    }
    if role :| role in roles && RoleAdmits(role, groups, cluster) {
      var binding :| binding in role.bindings && Admits(binding, groups, cluster);
      var b := Bound(binding.groups, GrantOf(role, binding));
      BoundsAreBindings(roles, b);
      GrantFollowsBinding(role, binding, cluster, Records);
      assert b in AllBound(roles) && Names(b, groups);
    }
  }

  lemma GivesOnRoles(roles: seq<Role>, groups: seq<string>, cluster: string, privilege: Privilege)
    ensures Gives(AllBound(roles), groups, cluster, privilege) <==>
              exists role :: role in roles && privilege in role.privileges && RoleAdmits(role, groups, cluster)
  {
    if Gives(AllBound(roles), groups, cluster, privilege) {
      var b :| b in AllBound(roles) && Names(b, groups) && b.grant.scope.Contains(cluster)
        && privilege in b.grant.privileges;
      BoundsAreBindings(roles, b);
      var role, binding :|
        role in roles && binding in role.bindings && b == Bound(binding.groups, GrantOf(role, binding));
      GrantFollowsBinding(role, binding, cluster, privilege);
      assert Admits(binding, groups, cluster) && RoleAdmits(role, groups, cluster);
    }
    if role :| role in roles && privilege in role.privileges && RoleAdmits(role, groups, cluster) {
      var binding :| binding in role.bindings && Admits(binding, groups, cluster);
      var b := Bound(binding.groups, GrantOf(role, binding));
      BoundsAreBindings(roles, b);
      GrantFollowsBinding(role, binding, cluster, privilege);
      assert b in AllBound(roles) && Names(b, groups);
    }
  }

  /** What the groups may do on a cluster, or none when they do not know it. */
  function Held(roles: Option<seq<Role>>, groups: seq<string>, cluster: string): Option<set<Privilege>> {
    match Admitted(roles, groups)
    case None => None
    case Some(access) => access.PrivilegesFor(cluster)
  }

  /**
   * On the role file alone: a cluster is known exactly when some binding lists one of the groups
   * and names no clusters or this one, and a privilege is held on it exactly when a role of such
   * a binding has it. Without a role file every privilege is held everywhere.
   */
  lemma AccessFollowsTheRoleFile(
      roles: Option<seq<Role>>, groups: seq<string>, cluster: string, privilege: Privilege)
    ensures roles.None? ==> Held(roles, groups, cluster).Some? && privilege in Held(roles, groups, cluster).value
    ensures roles.Some? ==>
              && (Held(roles, groups, cluster).Some? <==>
                    exists role :: role in roles.value && RoleAdmits(role, groups, cluster))
              && (Held(roles, groups, cluster).Some? && privilege in Held(roles, groups, cluster).value <==>
                    exists role ::
                      role in roles.value && privilege in role.privileges && RoleAdmits(role, groups, cluster))
  {
    if roles.Some? {
      var bound := AllBound(roles.value);
      PrivilegesAreTheUnion(bound, groups, cluster);
      CoversOnRoles(roles.value, groups, cluster);
      GivesOnRoles(roles.value, groups, cluster, privilege);
    }
  }
}
