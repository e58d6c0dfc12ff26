/** Topic patterns of the obfuscation rules: exact names and prefixes, no two of which may overlap. */
module TopicPatterns {
  import opened Wrappers

  datatype TopicPattern = Exact(name: string) | Prefix(prefix: string) {
    /** The topics the pattern applies to. */
    predicate Matches(topic: string) {
      match this
      case Exact(name) => topic == name
      case Prefix(prefix) => prefix <= topic
    }

    predicate Overlaps(other: TopicPattern) {
      match (this, other)
      case (Exact(left), Exact(right)) => left == right
      case (Exact(name), Prefix(prefix)) => prefix <= name
      case (Prefix(prefix), Exact(name)) => prefix <= name
      case (Prefix(left), Prefix(right)) => right <= left || left <= right
    }

    function Show(): string {
      match this
      case Exact(name) => name
      case Prefix(prefix) => prefix + "*"
    }

    /** What a pattern read from a configuration file holds. */
    predicate Plain() {
      match this
      case Exact(name) => '*' !in name
      case Prefix(prefix) => '*' !in prefix
    }
  }

  function Parse(pattern: string): Result<TopicPattern, string> {
    var ends := pattern != [] && pattern[|pattern| - 1] == '*';
    var prefix := if ends then pattern[..|pattern| - 1] else pattern;
    if ends && '*' !in prefix then Success(Prefix(prefix))
    else if !ends && '*' !in pattern then Success(Exact(pattern))
    else Failure("'*' may only end a topic pattern")
  }

  ghost predicate Share(left: TopicPattern, right: TopicPattern) {
    exists topic :: left.Matches(topic) && right.Matches(topic)
  }

  /** Two prefixes of one text nest. */
  lemma PrefixesNest(left: string, right: string, topic: string)
    requires left <= topic && right <= topic
    ensures left <= right || right <= left
  {
    if |left| <= |right| {
      assert left == right[..|left|];
    } else {
      assert right == left[..|right|];
    }
  }

  /** Patterns overlap exactly when some topic name matches both. */
  lemma OverlapsExactlyWhenShared(left: TopicPattern, right: TopicPattern)
    ensures left.Overlaps(right) <==> Share(left, right)
    ensures left.Overlaps(right) <==> right.Overlaps(left)
  {
    if left.Overlaps(right) {
      var topic := match (left, right)
        case (Exact(name), _) => name
        case (Prefix(_), Exact(name)) => name
        case (Prefix(one), Prefix(other)) => if one <= other then other else one;
      assert left.Matches(topic) && right.Matches(topic);
    }
    if Share(left, right) {
      var topic :| left.Matches(topic) && right.Matches(topic);
      if left.Prefix? && right.Prefix? { PrefixesNest(left.prefix, right.prefix, topic); }
    }
  }

  /** The accepted texts are exactly those whose only star, if any, ends them. */
  lemma ParsesExactlyWhenStarEnds(pattern: string)
    ensures Parse(pattern).Success? <==> forall i | 0 <= i < |pattern| - 1 :: pattern[i] != '*'
  {
    if Parse(pattern).Success? {
      forall i | 0 <= i < |pattern| - 1 ensures pattern[i] != '*' {
        if pattern[|pattern| - 1] == '*' { assert pattern[i] == pattern[..|pattern| - 1][i]; }
      }
    } else if pattern[|pattern| - 1] == '*' {
      var i :| 0 <= i < |pattern| - 1 && pattern[..|pattern| - 1][i] == '*';
      assert pattern[i] == '*';
    }
  }

  /** Every accepted text prints back as it was, and what it holds is plain. */
  lemma ShowUndoesParse(pattern: string)
    requires Parse(pattern).Success?
    ensures Parse(pattern).value.Show() == pattern && Parse(pattern).value.Plain()
  {
  }

  /** A pattern reads back as itself exactly when no star is part of its name or prefix. */
  lemma RoundTripsExactlyWhenPlain(pattern: TopicPattern)
    ensures Parse(pattern.Show()) == Success(pattern) <==> pattern.Plain()
  {
    if pattern.Prefix? {
      assert pattern.Show()[..|pattern.prefix|] == pattern.prefix;
    }
  }

  // -------------------------------------------------------------------- whole rules

  datatype Rule = Rule(topics: seq<TopicPattern>)

  datatype Overlap = Overlap(other: TopicPattern, topic: TopicPattern)

  /** The patterns of a rule list, in file order. */
  function Topics(rules: seq<Rule>): seq<TopicPattern>
    decreases rules
  {
    if rules == [] then [] else rules[0].topics + Topics(rules[1..])
  }

  ghost predicate Apart(topics: seq<TopicPattern>) {
    forall i, j | 0 <= i < j < |topics| :: !Share(topics[i], topics[j])
  }

  /** No topic name matches two of the patterns. */
  ghost predicate MatchOnce(topics: seq<TopicPattern>) {
    forall topic, i, j |
      0 <= i < |topics| && 0 <= j < |topics| && topics[i].Matches(topic) && topics[j].Matches(topic) :: i == j
  }

  /** The first pattern that overlaps one before it, and the first it overlaps. */
  ghost predicate FirstOverlap(topics: seq<TopicPattern>, overlap: Overlap) {
    exists i, j ::
      && 0 <= i < j < |topics|
      && overlap == Overlap(topics[i], topics[j])
      && Share(topics[i], topics[j])
      && Apart(topics[..j])
      && forall k | 0 <= k < i :: !Share(topics[k], topics[j])
  }

  method FindOverlap(covered: seq<TopicPattern>, topic: TopicPattern) returns (found: Option<nat>)
    ensures found.Some? ==> found.value < |covered| && Share(covered[found.value], topic)
    ensures found.Some? ==> forall k | 0 <= k < found.value :: !Share(covered[k], topic)
    ensures found.None? ==> forall k | 0 <= k < |covered| :: !Share(covered[k], topic)
  {
    for i := 0 to |covered|
      invariant forall k | 0 <= k < i :: !Share(covered[k], topic)
    {
      OverlapsExactlyWhenShared(covered[i], topic);
      if covered[i].Overlaps(topic) { return Some(i); }
    }
    found := None;
  }

  /** Accepts a rule list exactly when its patterns are apart; otherwise names the first conflict. */
  method Disjoint(rules: seq<Rule>) returns (result: Result<seq<Rule>, Overlap>)
    ensures result.Success? <==> MatchOnce(Topics(rules))
    ensures result.Success? ==> result.value == rules
    ensures result.Failure? ==> FirstOverlap(Topics(rules), result.error)
  {
    var topics := Topics(rules);
    var covered: seq<TopicPattern> := [];
    for j := 0 to |topics|
      invariant covered == topics[..j] && Apart(covered)
    {
      var found := FindOverlap(covered, topics[j]);
      if found.Some? {
        ghost var i := found.value;
        assert covered[i] == topics[i];
        assert forall k | 0 <= k < i :: topics[k] == covered[k];
        SharedMatchTwice(topics, i, j);
        return Failure(Overlap(covered[found.value], topics[j]));
      }
      assert topics[..j + 1] == covered + [topics[j]];
      covered := covered + [topics[j]];
    }
    assert topics[..|topics|] == topics;
    ApartMatchOnce(topics);
    result := Success(rules);
  }

  lemma SharedMatchTwice(topics: seq<TopicPattern>, i: nat, j: nat)
    requires i < j < |topics| && Share(topics[i], topics[j])
    ensures !MatchOnce(topics)
  {
    var topic :| topics[i].Matches(topic) && topics[j].Matches(topic);
  }

  lemma ApartMatchOnce(topics: seq<TopicPattern>)
    requires Apart(topics)
    ensures MatchOnce(topics)
  {
    forall topic, i, j | 0 <= i < |topics| && 0 <= j < |topics| && topics[i].Matches(topic) && topics[j].Matches(topic)
      ensures i == j
    {
      assert Share(topics[i], topics[j]) && Share(topics[j], topics[i]);
    }
  }

  // ------------------------------------------------------- what disjointness is for

  /** Later rules overwrite the exact names of earlier ones. */
  function LastExact(rules: seq<Rule>, upto: nat, topic: string): (found: Option<nat>)
    requires upto <= |rules|
    ensures found.Some? ==> found.value < |rules| && Exact(topic) in rules[found.value].topics
    ensures found.None? ==> forall k | 0 <= k < upto :: Exact(topic) !in rules[k].topics
  {
    if upto == 0 then None
    else if Exact(topic) in rules[upto - 1].topics then Some(upto - 1)
    else LastExact(rules, upto - 1, topic)
  }

  predicate HasPrefixOf(rule: Rule, topic: string) {
    exists p :: p in rule.topics && p.Prefix? && p.Matches(topic)
  }

  function FirstPrefix(rules: seq<Rule>, from: nat, topic: string): (found: Option<nat>)
    requires from <= |rules|
    ensures found.Some? ==> found.value < |rules| && HasPrefixOf(rules[found.value], topic)
    ensures found.None? ==> forall k | from <= k < |rules| :: !HasPrefixOf(rules[k], topic)
    decreases |rules| - from
  {
    if from == |rules| then None
    else if HasPrefixOf(rules[from], topic) then Some(from)
    else FirstPrefix(rules, from + 1, topic)
  }

  /** The rule that applies to a topic: one with its exact name, or else the first with a prefix of it. */
  function ForTopic(rules: seq<Rule>, topic: string): Option<nat> {
    var exact := LastExact(rules, |rules|, topic);
    if exact.Some? then exact else FirstPrefix(rules, 0, topic)
  }

  /** Where the patterns of a rule start in the list of all patterns. */
  function Start(rules: seq<Rule>, r: nat): nat
    requires r <= |rules|
  {
    if r == 0 then 0 else |rules[0].topics| + Start(rules[1..], r - 1)
  }

  lemma {:induction false} TopicAt(rules: seq<Rule>, r: nat, k: nat)
    requires r < |rules| && k < |rules[r].topics|
    ensures Start(rules, r) + k < |Topics(rules)|
    ensures Topics(rules)[Start(rules, r) + k] == rules[r].topics[k]
    decreases r
  {
    if r > 0 { TopicAt(rules[1..], r - 1, k); }
  }

  lemma {:induction false} StartsInOrder(rules: seq<Rule>, q: nat, r: nat)
    requires q < r <= |rules|
    ensures Start(rules, q) + |rules[q].topics| <= Start(rules, r)
    decreases q
  {
    if q > 0 { StartsInOrder(rules[1..], q - 1, r - 1); }
  }

  ghost predicate RuleMatches(rule: Rule, topic: string) {
    exists p :: p in rule.topics && p.Matches(topic)
  }

  /** Over an accepted list at most one rule has a pattern that matches a topic. */
  lemma AtMostOneRuleMatches(rules: seq<Rule>, topic: string, q: nat, r: nat)
    requires MatchOnce(Topics(rules)) && q < |rules| && r < |rules|
    requires RuleMatches(rules[q], topic) && RuleMatches(rules[r], topic)
    ensures q == r
  {
    var i := MatchAt(rules, topic, q);
    var j := MatchAt(rules, topic, r);
    assert i == j;
    if q < r { StartsInOrder(rules, q, r); }
    if r < q { StartsInOrder(rules, r, q); }
  }

  /** Where among all patterns one of a rule that matches stands. */
  lemma MatchAt(rules: seq<Rule>, topic: string, r: nat) returns (i: nat)
    requires r < |rules| && RuleMatches(rules[r], topic)
    ensures Start(rules, r) <= i < Start(rules, r) + |rules[r].topics|
    ensures i < |Topics(rules)| && Topics(rules)[i].Matches(topic)
  {
    var k :| 0 <= k < |rules[r].topics| && rules[r].topics[k].Matches(topic);
    TopicAt(rules, r, k);
    i := Start(rules, r) + k;
  }

  /** So the rule looked up is the only one that matches, wherever it stands in the file. */
  lemma LookupFindsTheOnlyRule(rules: seq<Rule>, topic: string, r: nat)
    requires MatchOnce(Topics(rules)) && r < |rules|
    ensures ForTopic(rules, topic) == Some(r) <==> RuleMatches(rules[r], topic)
  {
    var found := ForTopic(rules, topic);
    if found.Some? { assert RuleMatches(rules[found.value], topic); }
    if RuleMatches(rules[r], topic) {
      var p :| p in rules[r].topics && p.Matches(topic);
      assert p == Exact(topic) || HasPrefixOf(rules[r], topic);
      AtMostOneRuleMatches(rules, topic, found.value, r);
    }
  }
}
