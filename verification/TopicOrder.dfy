/** Partitions of topics in the order the lists are sorted by: topic first, then partition. */
module TopicOrder {
  datatype TopicPartition = TopicPartition(topic: string, partition: int)

  predicate TextBelow(a: string, b: string)
    decreases a
  {
    if b == [] then false
    else if a == [] then true
    else a[0] < b[0] || (a[0] == b[0] && TextBelow(a[1..], b[1..]))
  }

  predicate Below(a: TopicPartition, b: TopicPartition) {
    TextBelow(a.topic, b.topic) || (a.topic == b.topic && a.partition < b.partition)
  }

  /** Below where the texts first differ, or a proper prefix. */
  ghost predicate FirstDiffersBelow(a: string, b: string, i: nat) {
    i <= |a| && i < |b| && a[..i] == b[..i] && (i == |a| || a[i] < b[i])
  }

  lemma HeadsAgree(a: string, b: string, i: nat)
    requires FirstDiffersBelow(a, b, i)
    ensures i == 0 || (a != [] && b != [] && a[0] == b[0])
  {
    assert i == 0 || a[..i][0] == b[..i][0];
  }

  lemma {:induction false} TextBelowExactlyWhen(a: string, b: string)
    ensures TextBelow(a, b) <==> exists i: nat :: FirstDiffersBelow(a, b, i)
    decreases a
  {
    if a == [] || b == [] || a[0] != b[0] {
      if TextBelow(a, b) { assert FirstDiffersBelow(a, b, 0); }
      forall i: nat | FirstDiffersBelow(a, b, i) ensures i == 0 {
        HeadsAgree(a, b, i);
      }
    } else {
      TextBelowExactlyWhen(a[1..], b[1..]);
      assert a == [a[0]] + a[1..] && b == [b[0]] + b[1..];
      if i: nat :| FirstDiffersBelow(a[1..], b[1..], i) {
        assert a[..i + 1] == [a[0]] + a[1..][..i] && b[..i + 1] == [b[0]] + b[1..][..i];
        assert FirstDiffersBelow(a, b, i + 1);
      }
      if i: nat :| FirstDiffersBelow(a, b, i) {
        assert a[1..][..i - 1] == a[..i][1..] && b[1..][..i - 1] == b[..i][1..];
        assert FirstDiffersBelow(a[1..], b[1..], i - 1);
      }
    }
  }

  /** Partitions are ordered by topic, by character, and by number within a topic. */
  lemma BelowExactlyWhen(a: TopicPartition, b: TopicPartition)
    ensures Below(a, b) <==>
              || (exists i: nat :: FirstDiffersBelow(a.topic, b.topic, i))
              || (a.topic == b.topic && a.partition < b.partition)
  {
    TextBelowExactlyWhen(a.topic, b.topic);
  }

  lemma {:induction false} TextBelowIsStrict(a: string, b: string)
    ensures !(TextBelow(a, b) && TextBelow(b, a))
    ensures !TextBelow(a, a)
    decreases a
  {
    if a != [] {
      TextBelowIsStrict(a[1..], if b == [] then [] else b[1..]);
    }
  }

  lemma {:induction false} TextBelowIsTotal(a: string, b: string)
    ensures a == b || TextBelow(a, b) || TextBelow(b, a)
    decreases a
  {
    if a != [] && b != [] && a[0] == b[0] {
      TextBelowIsTotal(a[1..], b[1..]);
      assert a == [a[0]] + a[1..] && b == [b[0]] + b[1..];
    }
  }

  lemma {:induction false} TextBelowIsTransitive(a: string, b: string, c: string)
    requires TextBelow(a, b) && TextBelow(b, c)
    ensures TextBelow(a, c)
    decreases a
  {
    if a != [] && a[0] == b[0] && b[0] == c[0] {
      TextBelowIsTransitive(a[1..], b[1..], c[1..]);
    }
  }

  lemma BelowIsStrict(a: TopicPartition, b: TopicPartition)
    ensures !(Below(a, b) && Below(b, a))
    ensures !Below(a, a)
  {
    TextBelowIsStrict(a.topic, b.topic);
  }

  lemma BelowIsTotal(a: TopicPartition, b: TopicPartition)
    ensures a == b || Below(a, b) || Below(b, a)
  {
    TextBelowIsTotal(a.topic, b.topic);
  }

  lemma BelowIsTransitive(a: TopicPartition, b: TopicPartition, c: TopicPartition)
    requires Below(a, b) && Below(b, c)
    ensures Below(a, c)
  {
    if TextBelow(a.topic, b.topic) && TextBelow(b.topic, c.topic) {
      TextBelowIsTransitive(a.topic, b.topic, c.topic);
    }
  }

  /** Not above: the order that allows for two rows of the same partition. */
  predicate Upto(a: TopicPartition, b: TopicPartition) {
    a == b || Below(a, b)
  }

  lemma UptoIsTransitive(a: TopicPartition, b: TopicPartition, c: TopicPartition)
    requires Upto(a, b) && Upto(b, c)
    ensures Upto(a, c)
  {
    if a != b && b != c { BelowIsTransitive(a, b, c); }
  }

  ghost predicate SortedBy<T(!new)>(s: seq<T>, key: T -> TopicPartition) {
    forall i, j | 0 <= i < j < |s| :: Upto(key(s[i]), key(s[j]))
  }

  ghost predicate StrictlySorted(s: seq<TopicPartition>) {
    forall i, j | 0 <= i < j < |s| :: Below(s[i], s[j])
  }

  function Itself(p: TopicPartition): TopicPartition { p }

  /** Only one strictly sorted list has given elements, whatever order they were collected in. */
  lemma {:induction false} StrictlySortedIsUnique(s: seq<TopicPartition>, t: seq<TopicPartition>)
    requires StrictlySorted(s) && StrictlySorted(t)
    requires forall p :: p in s <==> p in t
    ensures s == t
    decreases |s|
  {
    assert t != [] ==> t[0] in t;
    if s != [] {
      assert s[0] in t && t[0] in s;
      BelowIsStrict(s[0], t[0]);
      assert s[0] == t[0];
      assert s == [s[0]] + s[1..] && t == [t[0]] + t[1..];
      forall p ensures p in s[1..] <==> p in t[1..] {
        BelowIsStrict(p, s[0]);
        assert p in s <==> p in t;
      }
      StrictlySortedIsUnique(s[1..], t[1..]);
    }
  }

  method InsertSorted<T(!new)>(s: seq<T>, row: T, key: T -> TopicPartition) returns (r: seq<T>)
    requires SortedBy(s, key)
    ensures SortedBy(r, key)
    ensures multiset(r) == multiset(s) + multiset{row}
  {
    var at := 0;
    while at < |s| && Upto(key(s[at]), key(row))
      invariant 0 <= at <= |s|
      invariant forall i | 0 <= i < at :: Upto(key(s[i]), key(row))
    {
      at := at + 1;
    }
    r := s[..at] + [row] + s[at..];
    assert s == s[..at] + s[at..];
    InsertedIsSorted(s, row, at, key);
  }

  lemma InsertedIsSorted<T(!new)>(s: seq<T>, row: T, at: nat, key: T -> TopicPartition)
    requires SortedBy(s, key) && at <= |s|
    requires forall i | 0 <= i < at :: Upto(key(s[i]), key(row))
    requires at < |s| ==> !Upto(key(s[at]), key(row))
    ensures SortedBy(s[..at] + [row] + s[at..], key)
  {
    var r := s[..at] + [row] + s[at..];
    if at < |s| { BelowIsTotal(key(row), key(s[at])); }
    forall i, j | 0 <= i < j < |r| ensures Upto(key(r[i]), key(r[j])) {
      if i == at && j > at + 1 { UptoIsTransitive(key(row), key(s[at]), key(s[j - 1])); }
    }
  }

  method Sort<T(!new)>(s: seq<T>, key: T -> TopicPartition) returns (r: seq<T>)
    ensures SortedBy(r, key)
    ensures multiset(r) == multiset(s)
  {
    r := [];
    for i := 0 to |s|
      invariant SortedBy(r, key)
      invariant multiset(r) == multiset(s[..i])
    {
      r := InsertSorted(r, s[i], key);
      assert s[..i + 1] == s[..i] + [s[i]];
    }
    assert s[..|s|] == s;
  }

  method Dedup(s: seq<TopicPartition>) returns (r: seq<TopicPartition>)
    requires SortedBy(s, Itself)
    ensures StrictlySorted(r)
    ensures forall p :: p in r <==> p in s
  {
    r := [];
    for i := 0 to |s|
      invariant StrictlySorted(r)
      invariant forall p :: p in r <==> p in s[..i]
      invariant r != [] <==> i > 0
      invariant i > 0 ==> r[|r| - 1] == s[i - 1]
    {
      if r == [] || r[|r| - 1] != s[i] {
        forall p | p in r ensures Below(p, s[i]) {
          var j :| 0 <= j < i && s[j] == p;
          assert Upto(Itself(s[j]), Itself(s[i]));
          if p == s[i] {
            UptoIsSame(s, j, i);
          }
        }
        r := r + [s[i]];
      }
      assert s[..i + 1] == s[..i] + [s[i]];
    }
    assert s[..|s|] == s;
  }

  /** Equal rows of a sorted list have nothing else between them. */
  lemma UptoIsSame(s: seq<TopicPartition>, i: nat, j: nat)
    requires SortedBy(s, Itself) && i < j < |s| && s[i] == s[j]
    ensures s[j - 1] == s[j]
  {
    assert Upto(Itself(s[j - 1]), Itself(s[j]));
    assert i < j - 1 ==> Upto(Itself(s[i]), Itself(s[j - 1]));
    BelowIsStrict(s[j - 1], s[j]);
  }

  method SortAndDedup(s: seq<TopicPartition>) returns (r: seq<TopicPartition>)
    ensures StrictlySorted(r)
    ensures forall p :: p in r <==> p in s
  {
    var sorted := Sort(s, Itself);
    r := Dedup(sorted);
    forall p ensures p in r <==> p in s {
      assert p in multiset(sorted) <==> p in multiset(s);
    }
  }
}
