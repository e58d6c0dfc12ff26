/**
 * Reading a schema's dependencies from a registry, wave by wave. The reads of
 * one wave complete in any order, which a nondeterministic choice stands for.
 */
module DependencyWaves {
  import opened Wrappers
  import opened DependencyOrder

  datatype Answer = Found(schema: Schema) | Refused(error: string)

  /** A stable registry: it answers a key the same way however often it is asked. */
  type Registry = SchemaKey -> Answer

  ghost predicate Closed(keys: set<SchemaKey>, registry: Registry, roots: seq<Reference>) {
    && (forall r | r in roots :: r.Key() in keys)
    && (forall k, r | k in keys && registry(k).Found? && r in registry(k).schema.references ::
          r.Key() in keys)
  }

  ghost function Held(registry: Registry, bound: set<SchemaKey>): Graph {
    map k | k in bound && registry(k).Found? :: registry(k).schema
  }

  /** A root, or a key referenced by a schema reachable from the roots. */
  ghost predicate Wanted(k: SchemaKey, roots: seq<Reference>, graph: Graph) {
    || Roots(roots, k)
    || exists a, r :: Needed(roots, graph, a) && r in graph[a].references && r.Key() == k
  }

  ghost function WantedKeys(registry: Registry, roots: seq<Reference>, bound: set<SchemaKey>): set<SchemaKey> {
    set k | k in bound && Wanted(k, roots, Held(registry, bound))
  }

  lemma NeededIsHeld(roots: seq<Reference>, graph: Graph, k: SchemaKey)
    requires Needed(roots, graph, k)
    ensures k in graph && Wanted(k, roots, graph)
  {
    var root :| Roots(roots, root) && Reaches(root, k, graph);
    var path :| Path(path, graph) && path[0] == root && path[|path| - 1] == k;
    if |path| > 1 {
      var prior := path[..|path| - 1];
      assert Path(prior, graph) && prior[0] == root;
      assert Edge(path[|path| - 2], k, graph);
      assert Reaches(root, path[|path| - 2], graph);
      assert Needed(roots, graph, path[|path| - 2]);
    }
  }

  lemma WantedIsNeeded(roots: seq<Reference>, graph: Graph, k: SchemaKey)
    requires Wanted(k, roots, graph) && k in graph
    ensures Needed(roots, graph, k)
  {
    if Roots(roots, k) {
      RootNeeded(roots, graph, k);
    } else {
      var a, r :| Needed(roots, graph, a) && r in graph[a].references && r.Key() == k;
      NeededIsHeld(roots, graph, a);
      NeededThen(roots, graph, a, k);
    }
  }

  /** The keys wanted are the least set that holds the roots and is closed under references. */
  lemma WantedKeysLeastClosed(
      registry: Registry, roots: seq<Reference>, bound: set<SchemaKey>, other: set<SchemaKey>)
    requires Closed(bound, registry, roots)
    ensures Closed(WantedKeys(registry, roots, bound), registry, roots)
    ensures Closed(other, registry, roots) ==> WantedKeys(registry, roots, bound) <= other
  {
    var graph := Held(registry, bound);
    var wanted := WantedKeys(registry, roots, bound);
    forall k, r | k in wanted && registry(k).Found? && r in registry(k).schema.references
      ensures r.Key() in wanted
    {
      WantedIsNeeded(roots, graph, k);
      assert graph[k] == registry(k).schema;
      assert Wanted(r.Key(), roots, graph);
    }
    if Closed(other, registry, roots) {
      forall k | k in wanted ensures k in other {
        if !Roots(roots, k) {
          var a, r :| Needed(roots, graph, a) && r in graph[a].references && r.Key() == k;
          NeededStays(registry, roots, bound, other, a);
        }
      }
    }
  }

  lemma NeededStays(
      registry: Registry, roots: seq<Reference>, bound: set<SchemaKey>, other: set<SchemaKey>, a: SchemaKey)
    requires Closed(other, registry, roots)
    requires Needed(roots, Held(registry, bound), a)
    ensures a in other && a in Held(registry, bound)
  {
    var graph := Held(registry, bound);
    var root :| Roots(roots, root) && Reaches(root, a, graph);
    var path :| Path(path, graph) && path[0] == root && path[|path| - 1] == a;
    forall x, y | x in other && Edge(x, y, graph) ensures y in other {
      assert graph[x] == registry(x).schema;
    }
    ClosedUnderPath(path, graph, other);
  }

  /** The schemas the waves fetch: every wanted key the registry holds. */
  ghost function Fetched(registry: Registry, roots: seq<Reference>, bound: set<SchemaKey>): Graph {
    map k | k in WantedKeys(registry, roots, bound) && registry(k).Found? :: registry(k).schema
  }

  /** The registry found a schema under the key that references this. */
  ghost predicate Referenced(registry: Registry, keys: set<SchemaKey>, r: Reference) {
    exists k :: k in keys && registry(k).Found? && r in registry(k).schema.references
  }

  /** The key is the subject and version of a root or of a reference of a schema found under `keys`. */
  ghost predicate Sourced(registry: Registry, roots: seq<Reference>, keys: set<SchemaKey>, k: SchemaKey) {
    exists r: Reference ::
      r.subject == k.subject && r.version == k.version && (r in roots || Referenced(registry, keys, r))
  }

  /** What is wanted is the subjects and versions of the roots and of what is referenced, and nothing else. */
  lemma WantedKeysAreSubjectsAndVersions(registry: Registry, roots: seq<Reference>, bound: set<SchemaKey>)
    requires Closed(bound, registry, roots)
    ensures var wanted := WantedKeys(registry, roots, bound);
            && (forall r | r in roots :: SchemaKey(r.subject, r.version) in wanted)
            && (forall k, r | k in wanted && registry(k).Found? && r in registry(k).schema.references ::
                  SchemaKey(r.subject, r.version) in wanted)
            && (forall k | k in wanted :: Sourced(registry, roots, wanted, k))
  {
    var graph, wanted := Held(registry, bound), WantedKeys(registry, roots, bound);
    WantedKeysLeastClosed(registry, roots, bound, wanted);
    assert forall r: Reference :: r.Key() == SchemaKey(r.subject, r.version);
    forall k | k in wanted ensures Sourced(registry, roots, wanted, k) {
      if Roots(roots, k) {
        var r :| r in roots && r.Key() == k;
        assert r.subject == k.subject && r.version == k.version;
      } else {
        var a, r :| Needed(roots, graph, a) && r in graph[a].references && r.Key() == k;
        NeededIsHeld(roots, graph, a);
        assert a in wanted && r in registry(a).schema.references;
        assert Referenced(registry, wanted, r) && r.subject == k.subject && r.version == k.version;
      }
    }
  }

  ghost predicate AllAnswered(registry: Registry, roots: seq<Reference>, bound: set<SchemaKey>) {
    forall k | k in WantedKeys(registry, roots, bound) :: registry(k).Found?
  }

  /** What one wave of reads keeps true while `outstanding` reads are still to complete. */
  ghost predicate Progress(
      registry: Registry, roots: seq<Reference>, wanted: set<SchemaKey>,
      fetched: Graph, pending: seq<Reference>, seen: set<SchemaKey>, outstanding: seq<Reference>)
  {
    && (forall k | k in fetched :: registry(k) == Found(fetched[k]))
    && (forall r | r in pending :: r.Key() in wanted)
    && (forall r | r in outstanding :: r.Key() in seen)
    && seen <= wanted
    && (forall k | k in seen :: k in fetched || exists r :: r in outstanding && r.Key() == k)
    && (forall r | r in roots :: r.Key() in seen || r in pending)
    && (forall k, r | k in fetched && r in fetched[k].references :: r.Key() in seen || r in pending)
    && fetched.Keys <= seen
  }

  lemma DoneIsFetched(
      registry: Registry, roots: seq<Reference>, bound: set<SchemaKey>, fetched: Graph, seen: set<SchemaKey>)
    requires Closed(bound, registry, roots)
    requires Progress(registry, roots, WantedKeys(registry, roots, bound), fetched, [], seen, [])
    ensures AllAnswered(registry, roots, bound)
    ensures seen == WantedKeys(registry, roots, bound)
    ensures fetched == Fetched(registry, roots, bound)
  {
    WantedKeysLeastClosed(registry, roots, bound, seen);
  }

  ghost predicate IsWave(pending: seq<Reference>, before: set<SchemaKey>, wave: seq<Reference>, seen: set<SchemaKey>) {
    && seen == before + (set r | r in pending :: r.Key())
    && (forall i | 0 <= i < |wave| :: wave[i] in pending && wave[i].Key() !in before)
    && (forall i, j | 0 <= i < j < |wave| :: wave[i].Key() != wave[j].Key())
    && (forall k | k in seen - before :: exists r :: r in wave && r.Key() == k)
  }

  /** Keeps the references whose key no earlier wave and no earlier entry of this one read. */
  method NextWave(pending: seq<Reference>, before: set<SchemaKey>)
    returns (wave: seq<Reference>, seen: set<SchemaKey>)
    ensures IsWave(pending, before, wave, seen)
  {
    wave, seen := [], before;
    for i := 0 to |pending|
      invariant seen == before + set r | r in pending[..i] :: r.Key()
      invariant forall r | r in wave :: r in pending && r.Key() !in before && r.Key() in seen
      invariant forall j, k | 0 <= j < k < |wave| :: wave[j].Key() != wave[k].Key()
      invariant forall k | k in seen - before :: exists r :: r in wave && r.Key() == k
    {
      assert pending[..i + 1] == pending[..i] + [pending[i]];
      var key := pending[i].Key();
      if key !in seen {
        ghost var prior := wave;
        wave := wave + [pending[i]];
        assert wave[|prior|] == pending[i];
        forall k | k in seen + {key} - before ensures exists r :: r in wave && r.Key() == k {
          if k in seen {
            assert k in seen - before;
            var r :| r in prior && r.Key() == k;
            assert r in wave;
          }
        }
        seen := seen + {key};
      }
    }
    assert pending[..|pending|] == pending;
  }

  lemma TakenOut<T>(s: seq<T>, i: nat)
    requires i < |s|
    ensures forall x :: x in s <==> x == s[i] || x in s[..i] + s[i + 1..]
  {
    assert s == s[..i] + [s[i]] + s[i + 1..];
  }

  lemma WaveProgresses(
      registry: Registry, roots: seq<Reference>, wanted: set<SchemaKey>, fetched: Graph,
      pending: seq<Reference>, before: set<SchemaKey>, wave: seq<Reference>, seen: set<SchemaKey>)
    requires Progress(registry, roots, wanted, fetched, pending, before, [])
    requires IsWave(pending, before, wave, seen)
    ensures Progress(registry, roots, wanted, fetched, [], seen, wave)
  {
    forall k | k in seen ensures k in fetched || exists r :: r in wave && r.Key() == k {
      if k !in before { assert k in seen - before; }
    }
  }

  lemma ReadProgresses(
      registry: Registry, roots: seq<Reference>, wanted: set<SchemaKey>, fetched: Graph,
      pending: seq<Reference>, seen: set<SchemaKey>, outstanding: seq<Reference>, i: nat)
    requires Closed(wanted, registry, roots)
    requires Progress(registry, roots, wanted, fetched, pending, seen, outstanding)
    requires i < |outstanding| && registry(outstanding[i].Key()).Found?
    ensures var schema := registry(outstanding[i].Key()).schema;
            Progress(registry, roots, wanted, fetched[outstanding[i].Key() := schema],
                     pending + schema.references, seen, outstanding[..i] + outstanding[i + 1..])
  {
    TakenOut(outstanding, i);
    var key := outstanding[i].Key();
    var schema := registry(key).schema;
    assert key in seen;
    assert forall r :: r in pending + schema.references <==> r in pending || r in schema.references;
  }

  /** The keys asked so far: each once, and every key seen that is not outstanding. */
  ghost predicate AskedOnce(asked: seq<SchemaKey>, seen: set<SchemaKey>, outstanding: seq<Reference>) {
    && Distinct(asked)
    && (forall k | k in asked :: k in seen)
    && (forall k | k in seen :: k in asked || exists r :: r in outstanding && r.Key() == k)
    && (forall r | r in outstanding :: r.Key() in seen && r.Key() !in asked)
    && (forall i, j | 0 <= i < j < |outstanding| :: outstanding[i].Key() != outstanding[j].Key())
  }

  lemma ReadAsksOnce(asked: seq<SchemaKey>, seen: set<SchemaKey>, outstanding: seq<Reference>, i: nat)
    requires AskedOnce(asked, seen, outstanding) && i < |outstanding|
    ensures AskedOnce(asked + [outstanding[i].Key()], seen, outstanding[..i] + outstanding[i + 1..])
  {
    var key, rest := outstanding[i].Key(), outstanding[..i] + outstanding[i + 1..];
    RestIsDistinct(outstanding, i);
    RestHoldsOthers(outstanding, i, key);
    forall k | k in seen ensures k in asked + [key] || exists r :: r in rest && r.Key() == k {
      if k !in asked && k != key {
        var r :| r in outstanding && r.Key() == k;
        assert r in rest;
      }
    }
  }

  lemma RestIsDistinct(outstanding: seq<Reference>, i: nat)
    requires i < |outstanding|
    requires forall j, k | 0 <= j < k < |outstanding| :: outstanding[j].Key() != outstanding[k].Key()
    ensures var rest := outstanding[..i] + outstanding[i + 1..];
            && (forall j, k | 0 <= j < k < |rest| :: rest[j].Key() != rest[k].Key())
            && (forall r | r in rest :: r.Key() != outstanding[i].Key())
  {
    var rest := outstanding[..i] + outstanding[i + 1..];
    assert forall j | 0 <= j < |rest| :: rest[j] == outstanding[if j < i then j else j + 1];
  }

  lemma RestHoldsOthers(outstanding: seq<Reference>, i: nat, key: SchemaKey)
    requires i < |outstanding| && key == outstanding[i].Key()
    ensures outstanding[i] in outstanding
    ensures var rest := outstanding[..i] + outstanding[i + 1..];
            && (forall r | r in rest :: r in outstanding)
            && (forall r | r in outstanding && r.Key() != key :: r in rest)
  {
    TakenOut(outstanding, i);
  }

  /** A reference to what was asked names the line, and the line's text is what the registry found there. */
  ghost predicate Carries(
      registry: Registry, roots: seq<Reference>, asked: seq<SchemaKey>, line: (string, string))
  {
    exists r: Reference :: && Names(r, line, map k | k in asked && registry(k).Found? :: registry(k).schema)
      && (r in roots || exists k :: k in asked && registry(k).Found? && r in registry(k).schema.references)
  }

  lemma LinesCarry(registry: Registry, roots: seq<Reference>, bound: set<SchemaKey>, asked: seq<SchemaKey>)
    requires forall k :: k in asked <==> k in WantedKeys(registry, roots, bound)
    ensures forall line | line in Outputs(DepthFirst(roots, {}, Fetched(registry, roots, bound)).emitted) ::
              Carries(registry, roots, asked, line)
  {
    var fetched := Fetched(registry, roots, bound);
    LinesAreNamed(roots, fetched);
    assert fetched == map k | k in asked && registry(k).Found? :: registry(k).schema;
  }

  /**
   * `bound` is any finite closed set: with one the loop terminates, and the
   * result does not depend on it beyond that or on the order reads complete in.
   */
  method Dependencies(registry: Registry, references: seq<Reference>, ghost bound: set<SchemaKey>)
    returns (result: Result<seq<(string, string)>, string>, ghost asked: seq<SchemaKey>)
    requires Closed(bound, registry, references)
    ensures Distinct(asked)
    ensures forall k | k in asked :: k in WantedKeys(registry, references, bound)
    ensures forall k | k in asked :: Sourced(registry, references, WantedKeys(registry, references, bound), k)
    ensures result.Success? ==>
              && (forall r | r in references :: SchemaKey(r.subject, r.version) in asked)
              && (forall k, r | k in asked && registry(k).Found? && r in registry(k).schema.references ::
                    SchemaKey(r.subject, r.version) in asked)
              && (forall line | line in result.value :: Carries(registry, references, asked, line))
    ensures result.Success? <==> AllAnswered(registry, references, bound)
    ensures result.Success? ==>
              && (forall k | k in WantedKeys(registry, references, bound) :: k in asked)
              && result.value == Outputs(DepthFirst(references, {}, Fetched(registry, references, bound)).emitted)
    ensures result.Failure? ==>
              exists k :: k in WantedKeys(registry, references, bound) && registry(k) == Refused(result.error)
  {
    ghost var wanted := WantedKeys(registry, references, bound);
    WantedKeysLeastClosed(registry, references, bound, wanted);
    WantedKeysAreSubjectsAndVersions(registry, references, bound);
    var fetched: Graph := map[];
    var pending := references;
    var seen: set<SchemaKey> := {};
    asked := [];
    while true
      invariant Progress(registry, references, wanted, fetched, pending, seen, [])
      invariant AskedOnce(asked, seen, [])
      decreases wanted - seen
    {
      ghost var before := seen;
      var wave;
      wave, seen := NextWave(pending, seen);
      WaveProgresses(registry, references, wanted, fetched, pending, before, wave, seen);
      pending := [];
      if wave == [] {
        break;
      }
      assert wave[0] in wave && wave[0].Key() in wanted - before;
      var outstanding := wave;
      while outstanding != []
        invariant Progress(registry, references, wanted, fetched, pending, seen, outstanding)
        invariant AskedOnce(asked, seen, outstanding)
        decreases |outstanding|
      {
        var next :| 0 <= next < |outstanding|;
        var key := outstanding[next].Key();
        ReadAsksOnce(asked, seen, outstanding, next);
        asked := asked + [key];
        assert outstanding[next] in outstanding;
        match registry(key)
        case Refused(error) =>
          return Failure(error), asked;
        case Found(schema) =>
          ReadProgresses(registry, references, wanted, fetched, pending, seen, outstanding, next);
          pending := pending + schema.references;
          fetched := fetched[key := schema];
          outstanding := outstanding[..next] + outstanding[next + 1..];
      }
    }
    DoneIsFetched(registry, references, bound, fetched, seen);
    var ordered := InDependencyOrder(references, fetched);
    LinesCarry(registry, references, bound, asked);
    result := Success(ordered);
  }

  /** Whatever finite closed set bounds the search, the schemas it fetches are the same. */
  lemma FetchedIgnoresBound(
      registry: Registry, roots: seq<Reference>, bound: set<SchemaKey>, other: set<SchemaKey>)
    requires Closed(bound, registry, roots) && Closed(other, registry, roots)
    ensures WantedKeys(registry, roots, bound) == WantedKeys(registry, roots, other)
    ensures Fetched(registry, roots, bound) == Fetched(registry, roots, other)
  {
    WantedKeysLeastClosed(registry, roots, bound, WantedKeys(registry, roots, other));
    WantedKeysLeastClosed(registry, roots, other, WantedKeys(registry, roots, bound));
    WantedKeysLeastClosed(registry, roots, other, other);
  }

  /** When every read answers, the list holds each wanted schema once and no other. */
  lemma ListsWantedOnce(registry: Registry, roots: seq<Reference>, bound: set<SchemaKey>)
    requires Closed(bound, registry, roots) && AllAnswered(registry, roots, bound)
    ensures var keys := Keys(DepthFirst(roots, {}, Fetched(registry, roots, bound)).emitted);
            Distinct(keys) && forall k :: k in keys <==> k in WantedKeys(registry, roots, bound)
  {
    var graph := Fetched(registry, roots, bound);
    var entered := DepthFirst(roots, {}, graph).entered;
    WantedKeysLeastClosed(registry, roots, bound, bound);
    EmittedOnce(roots, {}, graph);
    EntersReferences(roots, {}, graph);
    forall k, r | k in entered && registry(k).Found? && r in registry(k).schema.references
      ensures r.Key() in entered
    {
      assert Edge(k, r.Key(), graph);
    }
    WantedKeysLeastClosed(registry, roots, bound, entered);
  }
}
