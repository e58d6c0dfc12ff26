/** Finite sets of integers in the order a sorted map or set iterates them. */
module SortedInts {
  lemma {:induction false} LeastExists(keys: set<int>)
    requires keys != {}
    ensures exists least :: least in keys && forall k | k in keys :: least <= k
    decreases |keys|
  {
    assert (forall k :: k !in keys) ==> keys == {};
    var some :| some in keys;
    var rest := keys - {some};
    assert keys == rest + {some};
    if rest == {} {
      assert forall k | k in keys :: k == some;
    } else {
      LeastExists(rest);
      var least :| least in rest && forall k | k in rest :: least <= k;
      LesserIsLeast(keys, some, least);
    }
  }

  lemma LesserIsLeast(keys: set<int>, some: int, least: int)
    requires some in keys && least in keys && forall k | k in keys && k != some :: least <= k
    ensures exists lesser :: lesser in keys && forall k | k in keys :: lesser <= k
  {
    var lesser := if some < least then some else least;
    assert lesser in keys && forall k | k in keys :: lesser <= k;
  }

  ghost function Least(keys: set<int>): (least: int)
    requires keys != {}
    ensures least in keys && forall k | k in keys :: least <= k
  {
    LeastExists(keys);
    var least :| least in keys && forall k | k in keys :: least <= k;
    least
  }

  ghost function Ascending(keys: set<int>): seq<int> {
    if keys == {} then [] else [Least(keys)] + Ascending(keys - {Least(keys)})
  }

  ghost predicate StrictlyAscending(s: seq<int>) {
    forall i, j | 0 <= i < j < |s| :: s[i] < s[j]
  }

  lemma {:induction false} AscendingListsOnce(keys: set<int>)
    ensures forall k :: k in Ascending(keys) <==> k in keys
    ensures StrictlyAscending(Ascending(keys))
  {
    if keys != {} {
      var least := Least(keys);
      var rest := Ascending(keys - {least});
      AscendingListsOnce(keys - {least});
      forall i, j | 0 <= i < j < |[least] + rest| ensures ([least] + rest)[i] < ([least] + rest)[j] {
        assert rest[j - 1] in rest;
      }
    }
  }

  lemma {:induction false} GreatestExists(keys: set<int>)
    requires keys != {}
    ensures exists greatest :: greatest in keys && forall k | k in keys :: k <= greatest
  {
    var ascending := Ascending(keys);
    AscendingListsOnce(keys);
    var greatest := ascending[|ascending| - 1];
    assert greatest in ascending;
    forall k | k in keys ensures k <= greatest {
      var i :| 0 <= i < |ascending| && ascending[i] == k;
      assert i < |ascending| - 1 ==> ascending[i] < greatest;
    }
  }

  ghost function Greatest(keys: set<int>): (greatest: int)
    requires keys != {}
    ensures greatest in keys && forall k | k in keys :: k <= greatest
  {
    GreatestExists(keys);
    var greatest :| greatest in keys && forall k | k in keys :: k <= greatest;
    greatest
  }
}
