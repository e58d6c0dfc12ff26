/**
 * The explicit-stack walk that lists fetched schemas before the schemas that
 * reference them, and the recursive depth-first search it stands for.
 */
module DependencyOrder {
  datatype SchemaKey = SchemaKey(subject: string, version: int)

  datatype Reference = Reference(name: string, subject: string, version: int) {
    function Key(): SchemaKey {
      SchemaKey(subject, version)
    }
  }

  datatype Schema = Schema(text: string, references: seq<Reference>)

  type Graph = map<SchemaKey, Schema>

  datatype Visit = Enter(reference: Reference) | Leave(name: string, schema: Schema)

  // ---------------------------------------------------------------- the graph

  ghost predicate Edge(a: SchemaKey, b: SchemaKey, graph: Graph) {
    a in graph && b in graph && exists r :: r in graph[a].references && r.Key() == b
  }

  ghost predicate Path(path: seq<SchemaKey>, graph: Graph) {
    && path != []
    && (forall k | k in path :: k in graph)
    && (forall i | 0 < i < |path| :: Edge(path[i - 1], path[i], graph))
  }

  /** `a` reaches `b` over zero or more references. */
  ghost predicate Reaches(a: SchemaKey, b: SchemaKey, graph: Graph) {
    exists path :: Path(path, graph) && path[0] == a && path[|path| - 1] == b
  }

  ghost predicate Roots(roots: seq<Reference>, k: SchemaKey) {
    exists r :: r in roots && r.Key() == k
  }

  /** `k` is one of the roots or is reached from one. */
  ghost predicate Needed(roots: seq<Reference>, graph: Graph, k: SchemaKey) {
    exists root :: Roots(roots, root) && Reaches(root, k, graph)
  }

  lemma ReachesSelf(a: SchemaKey, graph: Graph)
    requires a in graph
    ensures Reaches(a, a, graph)
  {
    assert Path([a], graph) && [a][0] == a;
  }

  lemma ReachesThen(a: SchemaKey, b: SchemaKey, c: SchemaKey, graph: Graph)
    requires Reaches(a, b, graph) && Edge(b, c, graph)
    ensures Reaches(a, c, graph)
  {
    var path :| Path(path, graph) && path[0] == a && path[|path| - 1] == b;
    var longer := path + [c];
    assert Path(longer, graph) && longer[0] == a && longer[|longer| - 1] == c;
  }

  lemma EdgeReaches(a: SchemaKey, b: SchemaKey, graph: Graph)
    requires Edge(a, b, graph)
    ensures Reaches(a, b, graph)
  {
    ReachesSelf(a, graph);
    ReachesThen(a, a, b, graph);
  }

  /** A set that holds the start of a path and is closed under edges holds its end. */
  lemma {:induction false} ClosedUnderPath(path: seq<SchemaKey>, graph: Graph, closed: set<SchemaKey>)
    requires Path(path, graph) && path[0] in closed
    requires forall a, b :: a in closed && Edge(a, b, graph) ==> b in closed
    ensures path[|path| - 1] in closed
  {
    if |path| > 1 {
      ClosedUnderPath(path[..|path| - 1], graph, closed);
      assert Edge(path[|path| - 2], path[|path| - 1], graph);
    }
  }

  // ---------------------------------------------------- the reference search

  datatype Emitted = Emitted(key: SchemaKey, name: string, text: string)

  datatype Walk = Walk(entered: set<SchemaKey>, emitted: seq<Emitted>)

  /** Searches the last reference of `stack` first, as popping it does. */
  function DepthFirst(stack: seq<Reference>, entered: set<SchemaKey>, graph: Graph): (walk: Walk)
    ensures entered <= walk.entered
    decreases graph.Keys - entered, |stack|
  {
    if stack == [] then
      Walk(entered, [])
    else
      var reference, rest := stack[|stack| - 1], stack[..|stack| - 1];
      var key := reference.Key();
      if key in graph && key !in entered then
        var below := DepthFirst(graph[key].references, entered + {key}, graph);
        var after := DepthFirst(rest, below.entered, graph);
        Walk(after.entered,
             below.emitted + [Emitted(key, reference.name, graph[key].text)] + after.emitted)
      else
        DepthFirst(rest, entered, graph)
  }

  function Keys(emitted: seq<Emitted>): seq<SchemaKey> {
    seq(|emitted|, i requires 0 <= i < |emitted| => emitted[i].key)
  }

  function Outputs(emitted: seq<Emitted>): seq<(string, string)> {
    seq(|emitted|, i requires 0 <= i < |emitted| => (emitted[i].name, emitted[i].text))
  }

  ghost predicate Distinct<T>(s: seq<T>) {
    forall i, j | 0 <= i < j < |s| :: s[i] != s[j]
  }

  // ------------------------------------------------------------ the stack walk

  function Enters(references: seq<Reference>): seq<Visit> {
    seq(|references|, i requires 0 <= i < |references| => Enter(references[i]))
  }

  /** What the loop still has to list when it holds `visits` and `entered`. */
  function Finish(visits: seq<Visit>, entered: set<SchemaKey>, graph: Graph): seq<(string, string)>
    decreases graph.Keys - entered, |visits|
  {
    if visits == [] then
      []
    else
      var rest := visits[..|visits| - 1];
      match visits[|visits| - 1]
      case Leave(name, schema) => [(name, schema.text)] + Finish(rest, entered, graph)
      case Enter(reference) =>
        var key := reference.Key();
        if key in graph && key !in entered then
          Finish(rest + [Leave(reference.name, graph[key])] + Enters(graph[key].references),
                 entered + {key}, graph)
        else
          Finish(rest, entered, graph)
  }

  lemma OutputsAround(first: seq<Emitted>, item: Emitted, last: seq<Emitted>)
    ensures Outputs(first + [item] + last) == Outputs(first) + [(item.name, item.text)] + Outputs(last)
  {
  }

  lemma {:induction false} FinishSearches(
      base: seq<Visit>, stack: seq<Reference>, entered: set<SchemaKey>, graph: Graph)
    ensures var walk := DepthFirst(stack, entered, graph);
            Finish(base + Enters(stack), entered, graph)
            == Outputs(walk.emitted) + Finish(base, walk.entered, graph)
    decreases graph.Keys - entered, |stack|
  {
    if stack == [] {
      assert base + Enters(stack) == base;
    } else {
      var reference, rest := stack[|stack| - 1], stack[..|stack| - 1];
      var key := reference.Key();
      var visits := base + Enters(stack);
      assert visits[..|visits| - 1] == base + Enters(rest);
      if key in graph && key !in entered {
        var leave := Leave(reference.name, graph[key]);
        var below := DepthFirst(graph[key].references, entered + {key}, graph);
        var after := DepthFirst(rest, below.entered, graph);
        var resumed := base + Enters(rest) + [leave];
        FinishSearches(resumed, graph[key].references, entered + {key}, graph);
        assert resumed[..|resumed| - 1] == base + Enters(rest);
        FinishSearches(base, rest, below.entered, graph);
        OutputsAround(below.emitted, Emitted(key, reference.name, graph[key].text), after.emitted);
      } else {
        FinishSearches(base, rest, entered, graph);
      }
    }
  }

  /** The loop terminates and lists exactly what the recursive search lists. */
  method InDependencyOrder(roots: seq<Reference>, fetched: Graph)
    returns (ordered: seq<(string, string)>)
    ensures ordered == Outputs(DepthFirst(roots, {}, fetched).emitted)
  {
    ordered := [];
    var entered: set<SchemaKey> := {};
    var visits := Enters(roots);
    while visits != []
      invariant ordered + Finish(visits, entered, fetched) == Finish(Enters(roots), {}, fetched)
      decreases fetched.Keys - entered, |visits|
    {
      var visit := visits[|visits| - 1];
      visits := visits[..|visits| - 1];
      match visit
      case Enter(reference) =>
        var key := reference.Key();
        if key in fetched && key !in entered {
          entered := entered + {key};
          visits := visits + [Leave(reference.name, fetched[key])];
          visits := visits + Enters(fetched[key].references);
        }
      case Leave(name, schema) =>
        ordered := ordered + [(name, schema.text)];
    }
    assert [] + Enters(roots) == Enters(roots);
    FinishSearches([], roots, {}, fetched);
    var walk := DepthFirst(roots, {}, fetched);
    assert ordered + [] == ordered && Outputs(walk.emitted) + [] == Outputs(walk.emitted);
  }

  // ------------------------------------------------------- exactly once, and all

  /** A reference that enters a schema lists what lies below it, then it, then the rest. */
  lemma SearchKeys(stack: seq<Reference>, entered: set<SchemaKey>, graph: Graph)
    requires stack != []
    ensures var key := stack[|stack| - 1].Key();
            key in graph && key !in entered ==>
              var below := DepthFirst(graph[key].references, entered + {key}, graph);
              var after := DepthFirst(stack[..|stack| - 1], below.entered, graph);
              Keys(DepthFirst(stack, entered, graph).emitted)
              == Keys(below.emitted) + [key] + Keys(after.emitted)
  {
  }

  lemma DistinctAround<T>(first: seq<T>, middle: T, last: seq<T>)
    requires Distinct(first) && Distinct(last) && middle !in first
    requires forall x | x in last :: x !in first && x != middle
    ensures Distinct(first + [middle] + last)
  {
    var all := first + [middle] + last;
    forall i, j | 0 <= i < j < |all| ensures all[i] != all[j] {
      if j > |first| {
        assert all[j] == last[j - |first| - 1] && all[j] in last;
        if i > |first| { assert all[i] == last[i - |first| - 1]; }
      }
    }
  }

  /** The search enters what it emits, emits nothing twice and nothing entered before. */
  lemma {:induction false} EmittedOnce(stack: seq<Reference>, entered: set<SchemaKey>, graph: Graph)
    ensures var walk := DepthFirst(stack, entered, graph);
            && Distinct(Keys(walk.emitted))
            && (forall k :: k in walk.entered <==> k in entered || k in Keys(walk.emitted))
            && (forall k | k in Keys(walk.emitted) :: k in graph && k !in entered)
    decreases graph.Keys - entered, |stack|
  {
    if stack != [] {
      var reference, rest := stack[|stack| - 1], stack[..|stack| - 1];
      var key := reference.Key();
      if key in graph && key !in entered {
        var below := DepthFirst(graph[key].references, entered + {key}, graph);
        var after := DepthFirst(rest, below.entered, graph);
        EmittedOnce(graph[key].references, entered + {key}, graph);
        EmittedOnce(rest, below.entered, graph);
        DistinctAround(Keys(below.emitted), key, Keys(after.emitted));
        SearchKeys(stack, entered, graph);
      } else {
        EmittedOnce(rest, entered, graph);
      }
    }
  }

  /** Every reference searched, and every reference of a schema emitted, ends up entered. */
  lemma {:induction false} EntersReferences(stack: seq<Reference>, entered: set<SchemaKey>, graph: Graph)
    ensures var walk := DepthFirst(stack, entered, graph);
            && (forall r | r in stack && r.Key() in graph :: r.Key() in walk.entered)
            && (forall a, b | a in Keys(walk.emitted) && Edge(a, b, graph) :: b in walk.entered)
    decreases graph.Keys - entered, |stack|
  {
    if stack != [] {
      var reference, rest := stack[|stack| - 1], stack[..|stack| - 1];
      var key := reference.Key();
      assert forall r | r in stack :: r == reference || r in rest;
      if key in graph && key !in entered {
        var below := DepthFirst(graph[key].references, entered + {key}, graph);
        var after := DepthFirst(rest, below.entered, graph);
        EntersReferences(graph[key].references, entered + {key}, graph);
        EntersReferences(rest, below.entered, graph);
        SearchKeys(stack, entered, graph);
      } else {
        EntersReferences(rest, entered, graph);
      }
    }
  }

  /** Every schema emitted is reached from a reference searched. */
  lemma {:induction false} EmittedIsReached(
      stack: seq<Reference>, entered: set<SchemaKey>, graph: Graph, roots: seq<Reference>)
    requires forall r | r in stack && r.Key() in graph :: Needed(roots, graph, r.Key())
    ensures forall k | k in Keys(DepthFirst(stack, entered, graph).emitted) :: Needed(roots, graph, k)
    decreases graph.Keys - entered, |stack|
  {
    if stack != [] {
      var reference, rest := stack[|stack| - 1], stack[..|stack| - 1];
      var key := reference.Key();
      if key in graph && key !in entered {
        var below := DepthFirst(graph[key].references, entered + {key}, graph);
        var after := DepthFirst(rest, below.entered, graph);
        ChildrenNeeded(roots, graph, key);
        EmittedIsReached(graph[key].references, entered + {key}, graph, roots);
        EmittedIsReached(rest, below.entered, graph, roots);
        SearchKeys(stack, entered, graph);
      } else {
        EmittedIsReached(rest, entered, graph, roots);
      }
    }
  }

  lemma NeededThen(roots: seq<Reference>, graph: Graph, a: SchemaKey, b: SchemaKey)
    requires Needed(roots, graph, a) && Edge(a, b, graph)
    ensures Needed(roots, graph, b)
  {
    var root :| Roots(roots, root) && Reaches(root, a, graph);
    ReachesThen(root, a, b, graph);
  }

  lemma ChildrenNeeded(roots: seq<Reference>, graph: Graph, key: SchemaKey)
    requires key in graph && Needed(roots, graph, key)
    ensures forall r | r in graph[key].references && r.Key() in graph :: Needed(roots, graph, r.Key())
  {
    forall r | r in graph[key].references && r.Key() in graph ensures Needed(roots, graph, r.Key()) {
      NeededThen(roots, graph, key, r.Key());
    }
  }

  lemma RootNeeded(roots: seq<Reference>, graph: Graph, root: SchemaKey)
    requires Roots(roots, root) && root in graph
    ensures Needed(roots, graph, root)
  {
    ReachesSelf(root, graph);
  }

  /** The walk lists every schema reachable from the roots exactly once, and nothing else. */
  lemma ListsReachableOnce(roots: seq<Reference>, fetched: Graph)
    ensures var keys := Keys(DepthFirst(roots, {}, fetched).emitted);
            Distinct(keys) && forall k :: k in keys <==> Needed(roots, fetched, k)
  {
    var walk := DepthFirst(roots, {}, fetched);
    EmittedOnce(roots, {}, fetched);
    EntersReferences(roots, {}, fetched);
    forall r | r in roots && r.Key() in fetched ensures Needed(roots, fetched, r.Key()) {
      RootNeeded(roots, fetched, r.Key());
    }
    EmittedIsReached(roots, {}, fetched, roots);
    forall k | Needed(roots, fetched, k) ensures k in Keys(walk.emitted) {
      var root :| Roots(roots, root) && Reaches(root, k, fetched);
      var path :| Path(path, fetched) && path[0] == root && path[|path| - 1] == k;
      ClosedUnderPath(path, fetched, walk.entered);
    }
  }

  /** Each line listed carries the text fetched under its key, and a name it was referenced by. */
  lemma {:induction false} ListsFetchedText(stack: seq<Reference>, entered: set<SchemaKey>, graph: Graph)
    ensures forall e | e in DepthFirst(stack, entered, graph).emitted ::
              && e.key in graph && e.text == graph[e.key].text
              && (exists r: Reference :: r.Key() == e.key && r.name == e.name
                   && (r in stack || exists k :: k in graph && r in graph[k].references))
    decreases graph.Keys - entered, |stack|
  {
    if stack != [] {
      var reference, rest := stack[|stack| - 1], stack[..|stack| - 1];
      var key := reference.Key();
      if key in graph && key !in entered {
        ListsFetchedText(graph[key].references, entered + {key}, graph);
        ListsFetchedText(rest, DepthFirst(graph[key].references, entered + {key}, graph).entered, graph);
      } else {
        ListsFetchedText(rest, entered, graph);
      }
    }
  }

  /** The reference names the line, and its subject and version are where the line's text was fetched. */
  ghost predicate Names(r: Reference, line: (string, string), graph: Graph) {
    r.name == line.0 && SchemaKey(r.subject, r.version) in graph
    && graph[SchemaKey(r.subject, r.version)].text == line.1
  }

  /** Each line of the list is named by a root or by a reference of a fetched schema. */
  lemma LinesAreNamed(roots: seq<Reference>, fetched: Graph)
    ensures forall line | line in Outputs(DepthFirst(roots, {}, fetched).emitted) ::
              exists r ::
                && Names(r, line, fetched)
                && (r in roots || exists k :: k in fetched && r in fetched[k].references)
  {
    var emitted := DepthFirst(roots, {}, fetched).emitted;
    ListsFetchedText(roots, {}, fetched);
    forall line | line in Outputs(emitted)
      ensures exists r ::
        && Names(r, line, fetched)
        && (r in roots || exists k :: k in fetched && r in fetched[k].references)
    {
      var i :| 0 <= i < |emitted| && line == (emitted[i].name, emitted[i].text);
      var e := emitted[i];
      assert e in emitted;
      var r: Reference :| r.Key() == e.key && r.name == e.name
        && (r in roots || exists k :: k in fetched && r in fetched[k].references);
      assert Names(r, line, fetched);
    }
  }

  // --------------------------------------------------------------------- order

  /** Every reference of `s[i]` stands before it or leads back to it. */
  ghost predicate FollowsReferences(s: seq<SchemaKey>, i: nat, done: set<SchemaKey>, graph: Graph)
    requires i < |s|
  {
    forall b | Edge(s[i], b, graph) :: b in done || b in s[..i] || Reaches(b, s[i], graph)
  }

  ghost predicate AllFollow(s: seq<SchemaKey>, done: set<SchemaKey>, graph: Graph) {
    forall i | 0 <= i < |s| :: FollowsReferences(s, i, done, graph)
  }

  lemma KeyFollowsReferences(first: seq<SchemaKey>, key: SchemaKey, done: set<SchemaKey>, graph: Graph)
    requires forall b | Edge(key, b, graph) :: b in done || b in first || Reaches(b, key, graph)
    ensures FollowsReferences(first + [key], |first|, done, graph)
  {
    assert (first + [key])[..|first|] == first;
  }

  lemma FollowsAround(
      first: seq<SchemaKey>, key: SchemaKey, last: seq<SchemaKey>, done: set<SchemaKey>, graph: Graph)
    requires AllFollow(first, done, graph)
    requires FollowsReferences(first + [key], |first|, done, graph)
    requires AllFollow(last, done + {key} + (set k | k in first), graph)
    ensures AllFollow(first + [key] + last, done, graph)
  {
    var keys := first + [key] + last;
    forall i | 0 <= i < |keys| ensures FollowsReferences(keys, i, done, graph) {
      if i < |first| {
        assert FollowsReferences(first, i, done, graph);
        assert keys[..i] == first[..i];
      } else if i == |first| {
        assert keys[..i] == (first + [key])[..i];
      } else {
        var j := i - |first| - 1;
        assert FollowsReferences(last, j, done + {key} + (set k | k in first), graph);
        assert keys[..i] == first + [key] + last[..j];
      }
    }
  }

  /** Every schema still open reaches every reference still to be searched. */
  ghost predicate OpenReaches(open: set<SchemaKey>, stack: seq<Reference>, graph: Graph) {
    forall b, r | b in open && r in stack && r.Key() in graph :: Reaches(b, r.Key(), graph)
  }

  lemma OpenReachesChildren(key: SchemaKey, open: set<SchemaKey>, graph: Graph)
    requires key in graph
    requires forall b | b in open :: Reaches(b, key, graph)
    ensures OpenReaches(open + {key}, graph[key].references, graph)
  {
    forall b, r | b in open + {key} && r in graph[key].references && r.Key() in graph
      ensures Reaches(b, r.Key(), graph)
    {
      if b in open { ReachesThen(b, key, r.Key(), graph); } else { EdgeReaches(key, r.Key(), graph); }
    }
  }

  lemma ChildrenEntered(key: SchemaKey, entered: set<SchemaKey>, done: set<SchemaKey>, graph: Graph)
    requires key in graph && key !in entered
    requires forall b | b in entered - done :: Reaches(b, key, graph)
    ensures var first := Keys(DepthFirst(graph[key].references, entered + {key}, graph).emitted);
            forall b | Edge(key, b, graph) :: b in done || b in first || Reaches(b, key, graph)
  {
    EmittedOnce(graph[key].references, entered + {key}, graph);
    EntersReferences(graph[key].references, entered + {key}, graph);
    ReachesSelf(key, graph);
  }

  lemma SearchOpens(
      stack: seq<Reference>, entered: set<SchemaKey>, done: set<SchemaKey>, graph: Graph)
    requires stack != [] && done <= entered && OpenReaches(entered - done, stack, graph)
    ensures OpenReaches(entered - done, stack[..|stack| - 1], graph)
    ensures var key := stack[|stack| - 1].Key();
            key in graph && key !in entered ==>
              var below := DepthFirst(graph[key].references, entered + {key}, graph);
              var left := done + {key} + (set k | k in Keys(below.emitted));
              && OpenReaches(entered + {key} - done, graph[key].references, graph)
              && left <= below.entered && below.entered - left <= entered - done
              && FollowsReferences(Keys(below.emitted) + [key], |below.emitted|, done, graph)
  {
    var key := stack[|stack| - 1].Key();
    assert stack[|stack| - 1] in stack;
    if key in graph && key !in entered {
      OpenReachesChildren(key, entered - done, graph);
      EmittedOnce(graph[key].references, entered + {key}, graph);
      ChildrenEntered(key, entered, done, graph);
      KeyFollowsReferences(
        Keys(DepthFirst(graph[key].references, entered + {key}, graph).emitted), key, done, graph);
      assert entered - done + {key} >= entered + {key} - done;
    }
  }

  /**
   * `done` holds the schemas that left before this search began. The others in
   * `entered` are still open, and an open schema reaches whatever is searched.
   */
  lemma {:induction false} SearchFollowsReferences(
      stack: seq<Reference>, entered: set<SchemaKey>, done: set<SchemaKey>, graph: Graph)
    requires done <= entered && OpenReaches(entered - done, stack, graph)
    ensures AllFollow(Keys(DepthFirst(stack, entered, graph).emitted), done, graph)
    decreases graph.Keys - entered, |stack|
  {
    if stack != [] {
      var rest, key := stack[..|stack| - 1], stack[|stack| - 1].Key();
      SearchOpens(stack, entered, done, graph);
      if key in graph && key !in entered {
        var below := DepthFirst(graph[key].references, entered + {key}, graph);
        var first, last := Keys(below.emitted), Keys(DepthFirst(rest, below.entered, graph).emitted);
        SearchKeys(stack, entered, graph);
        SearchFollowsReferences(graph[key].references, entered + {key}, done, graph);
        SearchFollowsReferences(rest, below.entered, done + {key} + (set k | k in first), graph);
        FollowsAround(first, key, last, done, graph);
      } else {
        SearchFollowsReferences(rest, entered, done, graph);
      }
    }
  }

  /** Where a schema listed does not follow one it references, that one reaches it back. */
  lemma FollowsReferencesOrCycles(roots: seq<Reference>, fetched: Graph)
    ensures var keys := Keys(DepthFirst(roots, {}, fetched).emitted);
            forall i, b | 0 <= i < |keys| && Edge(keys[i], b, fetched) ::
              b in keys[..i] || Reaches(b, keys[i], fetched)
  {
    SearchFollowsReferences(roots, {}, {}, fetched);
    var keys := Keys(DepthFirst(roots, {}, fetched).emitted);
    forall i, b | 0 <= i < |keys| && Edge(keys[i], b, fetched)
      ensures b in keys[..i] || Reaches(b, keys[i], fetched)
    {
      assert FollowsReferences(keys, i, {}, fetched);
    }
  }

  ghost predicate Topological(keys: seq<SchemaKey>, graph: Graph) {
    forall i, b | 0 <= i < |keys| && Edge(keys[i], b, graph) :: b in keys[..i]
  }

  /** No reachable schema leads back to itself over one or more references. */
  ghost predicate Acyclic(roots: seq<Reference>, graph: Graph) {
    forall a, b | Needed(roots, graph, a) && Edge(a, b, graph) :: !Reaches(b, a, graph)
  }

  /** Along a path inside a topological list, positions only fall. */
  lemma {:induction false} PositionsFall(path: seq<SchemaKey>, keys: seq<SchemaKey>, graph: Graph, i: nat)
    requires Path(path, graph) && Topological(keys, graph)
    requires i < |keys| && keys[i] == path[0]
    ensures exists j :: 0 <= j <= i && keys[j] == path[|path| - 1]
  {
    if |path| > 1 {
      assert Edge(path[0], path[1], graph);
      assert path[1] in keys[..i];
      var next :| 0 <= next < i && keys[next] == path[1];
      var tail := path[1..];
      assert forall n | 0 < n < |tail| :: Edge(tail[n - 1], tail[n], graph) by {
        forall n | 0 < n < |tail| ensures Edge(tail[n - 1], tail[n], graph) {
          assert Edge(path[n], path[n + 1], graph);
        }
      }
      PositionsFall(tail, keys, graph, next);
    }
  }

  /** Every schema listed follows all it references exactly when no cycle is reachable. */
  lemma TopologicalExactlyWhenAcyclic(roots: seq<Reference>, fetched: Graph)
    ensures Topological(Keys(DepthFirst(roots, {}, fetched).emitted), fetched)
            <==> Acyclic(roots, fetched)
  {
    var keys := Keys(DepthFirst(roots, {}, fetched).emitted);
    ListsReachableOnce(roots, fetched);
    FollowsReferencesOrCycles(roots, fetched);
    if Topological(keys, fetched) {
      forall a, b | Needed(roots, fetched, a) && Edge(a, b, fetched) ensures !Reaches(b, a, fetched) {
        if Reaches(b, a, fetched) {
          var i :| 0 <= i < |keys| && keys[i] == a;
          assert b in keys[..i];
          var j :| 0 <= j < i && keys[j] == b;
          var path :| Path(path, fetched) && path[0] == b && path[|path| - 1] == a;
          PositionsFall(path, keys, fetched, j);
        }
      }
    }
  }

  const CYCLE: Graph := map[
    SchemaKey("a", 1) := Schema("A", [Reference("b", "b", 1)]),
    SchemaKey("b", 1) := Schema("B", [Reference("a", "a", 1)])]

  /** Two schemas that reference each other: one of them has to come before one it references. */
  lemma CycleIsListedOutOfOrder()
    ensures var roots, a, b := [Reference("a", "a", 1)], SchemaKey("a", 1), SchemaKey("b", 1);
            var keys := Keys(DepthFirst(roots, {}, CYCLE).emitted);
            keys == [b, a] && Edge(b, a, CYCLE) && !Topological(keys, CYCLE) && !Acyclic(roots, CYCLE)
  {
    var toA, toB := Reference("a", "a", 1), Reference("b", "b", 1);
    var a, b := toA.Key(), toB.Key();
    assert toA in CYCLE[b].references && toB in CYCLE[a].references;
    assert [toA][..0] == [] && [toB][..0] == [];
    assert DepthFirst([toA], {a, b}, CYCLE) == Walk({a, b}, []);
    assert {a} + {b} == {a, b} && {} + {a} == {a};
    assert DepthFirst([toB], {a}, CYCLE) == Walk({a, b}, [Emitted(b, "b", "B")]);
    assert DepthFirst([toA], {}, CYCLE) == Walk({a, b}, [Emitted(b, "b", "B"), Emitted(a, "a", "A")]);
    var keys := Keys(DepthFirst([toA], {}, CYCLE).emitted);
    assert keys == [b, a];
    assert Edge(keys[0], a, CYCLE) && a !in keys[..0];
    TopologicalExactlyWhenAcyclic([toA], CYCLE);
  }
}
