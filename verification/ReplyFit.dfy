/** Fitting a reply to its byte budget by showing fewer rows of its lists. */
module ReplyFit {
  import opened Text
  import opened Wrappers

  const RESULT_BYTES := 24_000

  // ---------------------------------------------------------------------- the rows

  /** What a list shows, and how many rows that leaves out. */
  datatype Shown<T> = Shown(name: string, rows: seq<T>, leftOut: nat)

  function Min(a: nat, b: nat): nat {
    if a < b then a else b
  }

  function ShownOf<T>(name: string, all: seq<T>, rows: nat): Shown<T> {
    var kept := Min(rows, |all|);
    Shown(name, all[..kept], |all| - kept)
  }

  /** A list of a reply, of which only the first rows are shown. */
  class Rows<T> {
    const name: string
    const all: seq<T>
    var shown: nat

    ghost predicate Valid()
      reads this
    {
      shown <= |all|
    }

    constructor (name: string, all: seq<T>)
      ensures Valid() && this.name == name && this.all == all && shown == |all|
    {
      this.name, this.all, shown := name, all, |all|;
    }

    function Seen(): Shown<T>
      requires Valid()
      reads this
    {
      Shown(name, all[..shown], |all| - shown)
    }

    /** What showing a number of rows comes to, whatever was shown before. */
    function At(rows: nat): Shown<T> {
      ShownOf(name, all, rows)
    }

    method Show(rows: nat)
      modifies this
      ensures Valid() && Seen() == At(rows)
      ensures shown == Min(rows, |all|)
    {
      shown := if rows < |all| then rows else |all|;
    }
  }

  // ---------------------------------------------------------------------- the reply

  /** A list whose rows hold lists of their own, kept whole. */
  datatype Nested<I> = Nested(name: string, whole: seq<I>)

  function Capped<I, T>(items: seq<I>, cap: (I, nat) -> T, most: nat): (capped: seq<T>)
    ensures |capped| == |items| && forall i | 0 <= i < |items| :: capped[i] == cap(items[i], most)
  {
    seq(|items|, i requires 0 <= i < |items| => cap(items[i], most))
  }

  /**
   * A reply: lists whose rows are capped copies of what is kept whole, made anew for each
   * row count, and lists shown as they are.
   */
  class Reply<I, T> {
    const nested: seq<Nested<I>>
    const cap: (I, nat) -> T
    const plain: seq<Rows<T>>
    var capped: seq<Rows<T>>

    constructor (nested: seq<Nested<I>>, cap: (I, nat) -> T, plain: seq<Rows<T>>)
      ensures this.nested == nested && this.cap == cap && this.plain == plain && capped == []
    {
      this.nested, this.cap, this.plain, capped := nested, cap, plain, [];
    }

    /** The capped copies hold each nested list's whole items, capped at `most`. */
    ghost predicate CappedAt(most: nat)
      reads this
    {
      |capped| == |nested| && forall i | 0 <= i < |nested| ::
        capped[i].name == nested[i].name && capped[i].all == Capped(nested[i].whole, cap, most)
    }

    /** Rebuilds the capped lists from what is kept whole. */
    method Cap(most: nat)
      modifies this`capped
      ensures CappedAt(most)
      ensures forall list | list in capped :: fresh(list) && list.Valid()
    {
      var lists: seq<Rows<T>> := [];
      for i := 0 to |nested|
        invariant |lists| == i
        invariant forall j | 0 <= j < i :: fresh(lists[j]) && lists[j].Valid() && lists[j].name == nested[j].name
                    && lists[j].all == Capped(nested[j].whole, cap, most)
      {
        var list := new Rows(nested[i].name, Capped(nested[i].whole, cap, most));
        lists := lists + [list];
      }
      capped := lists;
    }

    /** The reply with at most so many rows of each list, whatever it showed before. */
    function At(rows: nat): (lists: seq<Shown<T>>)
      ensures |lists| == |nested| + |plain|
    {
      seq(|nested| + |plain|, i requires 0 <= i < |nested| + |plain| =>
        if i < |nested| then ShownOf(nested[i].name, Capped(nested[i].whole, cap, rows), rows)
        else plain[i - |nested|].At(rows))
    }

    method Render(rows: nat) returns (shown: seq<Shown<T>>)
      modifies this`capped, set list | list in plain
      ensures shown == At(rows)
      ensures CappedAt(rows)
      ensures forall list | list in capped + plain :: list.Valid() && list.Seen() == list.At(rows)
    {
      Cap(rows);
      var lists := capped + plain;
      shown := ShowAll(lists, rows);
    }
  }

  method ShowAll<T>(lists: seq<Rows<T>>, rows: nat) returns (shown: seq<Shown<T>>)
    modifies set list | list in lists
    ensures |shown| == |lists| && forall i | 0 <= i < |lists| :: shown[i] == lists[i].At(rows)
    ensures forall list | list in lists :: list.Valid() && list.Seen() == list.At(rows)
  {
    shown := [];
    for i := 0 to |lists|
      invariant |shown| == i && forall j | 0 <= j < i :: shown[j] == lists[j].At(rows)
      invariant forall j | 0 <= j < i :: lists[j].shown == Min(rows, |lists[j].all|)
    {
      lists[i].Show(rows);
      shown := shown + [lists[i].Seen()];
    }
  }

  // ---------------------------------------------------------------------- the budget

  function Total(pieces: seq<nat>): nat {
    if pieces == [] then 0 else pieces[0] + Total(pieces[1..])
  }

  /** Counts serialized bytes, and fails once they are more than the budget. */
  class ByteBudget {
    var left: nat

    constructor (budget: nat)
      ensures left == budget
    {
      left := budget;
    }

    method Write(bytes: nat) returns (written: bool)
      modifies this
      ensures written <==> bytes <= old(left)
      ensures left == if written then old(left) - bytes else old(left)
    {
      written := bytes <= left;
      if written { left := left - bytes; }
    }
  }

  /** However a reply is cut into pieces, it fits exactly when its bytes do. */
  method Fits(pieces: seq<nat>) returns (fits: bool)
    ensures fits <==> Total(pieces) <= 24_000
  {
    var budget := new ByteBudget(RESULT_BYTES);
    for i := 0 to |pieces|
      invariant budget.left + Total(pieces) == RESULT_BYTES + Total(pieces[i..])
    {
      var written := budget.Write(pieces[i]);
      if !written { return false; }
    }
    fits := true;
  }

  // ---------------------------------------------------------------------- the search

  /**
   * How a rendered reply is serialized: the sizes of the pieces written, the note on
   * what was left out among them. The row count counts too, since the note may name it.
   */
  type Serializer<!T> = (nat, seq<Shown<T>>) -> seq<nat>

  predicate Fitting<I, T>(reply: Reply<I, T>, serialize: Serializer<T>, rows: nat) {
    Total(serialize(rows, reply.At(rows))) <= RESULT_BYTES
  }

  function FitsAt<I, T>(reply: Reply<I, T>, serialize: Serializer<T>): nat -> bool {
    (rows: nat) => Fitting(reply, serialize, rows)
  }

  function Middle(fitting: nat, tooMany: nat): nat
    requires fitting < tooMany
  {
    fitting + (tooMany - fitting) / 2
  }

  /** The row count a bisection between a count that fits and one that does not ends on. */
  function Bisected(fits: nat -> bool, fitting: nat, tooMany: nat): (rows: nat)
    decreases tooMany - fitting
  {
    if tooMany <= fitting + 1 then fitting
    else
      var rows := Middle(fitting, tooMany);
      if fits(rows) then Bisected(fits, rows, tooMany) else Bisected(fits, fitting, rows)
  }

  /** Bisecting ends where the count fits, or is the one it started from, and one more does not fit. */
  lemma {:induction false} BisectedIsAnEdge(fits: nat -> bool, fitting: nat, tooMany: nat)
    requires fitting < tooMany && !fits(tooMany)
    ensures var rows := Bisected(fits, fitting, tooMany);
            && fitting <= rows < tooMany
            && !fits(rows + 1)
            && (rows == fitting || fits(rows))
    decreases tooMany - fitting
  {
    if tooMany > fitting + 1 {
      var rows := Middle(fitting, tooMany);
      if fits(rows) { BisectedIsAnEdge(fits, rows, tooMany); }
      else { BisectedIsAnEdge(fits, fitting, rows); }
    }
  }

  function CeilLog2(n: nat): nat {
    if n <= 1 then 0 else 1 + CeilLog2((n + 1) / 2)
  }

  function Pow2(e: nat): nat {
    if e == 0 then 1 else 2 * Pow2(e - 1)
  }

  /** The least exponent whose power of two is not below the number. */
  lemma {:induction false} CeilLog2IsLeast(n: nat)
    ensures n <= Pow2(CeilLog2(n))
    ensures n > 1 ==> Pow2(CeilLog2(n) - 1) < n
  {
    if n > 1 {
      CeilLog2IsLeast((n + 1) / 2);
    }
  }

  lemma {:induction false} CeilLog2Grows(m: nat, n: nat)
    requires m <= n
    ensures CeilLog2(m) <= CeilLog2(n)
  {
    if m > 1 { CeilLog2Grows((m + 1) / 2, (n + 1) / 2); }
  }

  lemma HalvingLogs(gap: nat, half: nat)
    requires gap > 1 && half <= (gap + 1) / 2
    ensures CeilLog2(half) + 1 <= CeilLog2(gap)
  {
    CeilLog2Grows(half, (gap + 1) / 2);
  }

  /** The row count a search settles on. */
  function Settled<I, T>(reply: Reply<I, T>, serialize: Serializer<T>, most: nat): nat {
    var cap := Min(most, RESULT_BYTES);
    if Fitting(reply, serialize, cap) then cap
    else Bisected(FitsAt(reply, serialize), 0, cap)
  }

  method Try<I, T>(reply: Reply<I, T>, serialize: Serializer<T>, rows: nat)
    returns (shown: seq<Shown<T>>, fits: bool)
    modifies reply`capped, set list | list in reply.plain
    ensures shown == reply.At(rows)
    ensures fits == FitsAt(reply, serialize)(rows)
  {
    shown := reply.Render(rows);
    fits := Fits(serialize(rows, shown));
  }

  lemma Halves(fits: nat -> bool, fitting: nat, tooMany: nat)
    requires tooMany - fitting > 1
    ensures var rows := Middle(fitting, tooMany);
            && fitting < rows < tooMany
            && CeilLog2(rows - fitting) + 1 <= CeilLog2(tooMany - fitting)
            && CeilLog2(tooMany - rows) + 1 <= CeilLog2(tooMany - fitting)
            && Bisected(fits, fitting, tooMany)
                 == if fits(rows) then Bisected(fits, rows, tooMany) else Bisected(fits, fitting, rows)
  {
    var rows := Middle(fitting, tooMany);
    HalvingLogs(tooMany - fitting, rows - fitting);
    HalvingLogs(tooMany - fitting, tooMany - rows);
  }

  /** One halving: renders the middle count and keeps what fits. */
  method Narrow<I, T>(
      reply: Reply<I, T>, serialize: Serializer<T>, before: nat, above: nat, held: Option<seq<Shown<T>>>)
    returns (fitting: nat, tooMany: nat, best: Option<seq<Shown<T>>>)
    requires above - before > 1
    requires held == if before == 0 then None else Some(reply.At(before))
    modifies reply`capped, set list | list in reply.plain
    ensures fitting < tooMany
    ensures Bisected(FitsAt(reply, serialize), fitting, tooMany) == Bisected(FitsAt(reply, serialize), before, above)
    ensures CeilLog2(tooMany - fitting) + 1 <= CeilLog2(above - before)
    ensures tooMany - fitting < above - before
    ensures best == if fitting == 0 then None else Some(reply.At(fitting))
  {
    Halves(FitsAt(reply, serialize), before, above);
    var rows := Middle(before, above);
    var shown, fits := Try(reply, serialize, rows);
    if fits { return rows, above, Some(shown); }
    return before, rows, held;
  }

  method Bisect<I, T>(reply: Reply<I, T>, serialize: Serializer<T>, cap: nat)
    returns (best: Option<seq<Shown<T>>>, ghost renders: nat)
    modifies reply`capped, set list | list in reply.plain
    ensures var rows := Bisected(FitsAt(reply, serialize), 0, cap);
            best == if rows == 0 then None else Some(reply.At(rows))
    ensures renders <= CeilLog2(cap)
  {
    ghost var fits := FitsAt(reply, serialize);
    var fitting: nat, tooMany: nat := 0, cap;
    best, renders := None, 0;
    while tooMany - fitting > 1
      invariant fitting <= tooMany
      invariant Bisected(fits, fitting, tooMany) == Bisected(fits, 0, cap)
      invariant best == if fitting == 0 then None else Some(reply.At(fitting))
      invariant renders + CeilLog2(tooMany - fitting) <= CeilLog2(cap)
    {
      fitting, tooMany, best := Narrow(reply, serialize, fitting, tooMany, best);
      renders := renders + 1;
    }
  }

  method Search<I, T>(reply: Reply<I, T>, serialize: Serializer<T>, most: nat)
    returns (shown: seq<Shown<T>>, ghost renders: nat)
    modifies reply`capped, set list | list in reply.plain
    ensures shown == reply.At(Settled(reply, serialize, most))
    ensures renders <= 2 + CeilLog2(Min(most, RESULT_BYTES))
  {
    var cap := Min(most, RESULT_BYTES);
    var full, fullFits := Try(reply, serialize, cap);
    if fullFits { return full, 1; }
    var best, bisecting := Bisect(reply, serialize, cap);
    if best.Some? { return best.value, 1 + bisecting; }
    shown := reply.Render(0);
    renders := 2 + bisecting;
  }

  /**
   * The reply is the whole one if that fits; otherwise it has a row count that fits where
   * one more does not, or, when not even one row is found to fit, no rows at all.
   */
  lemma SettlesOnAnEdge<I, T>(reply: Reply<I, T>, serialize: Serializer<T>, most: nat)
    ensures var cap, rows := Min(most, RESULT_BYTES), Settled(reply, serialize, most);
            && rows <= cap
            && (rows == cap <==> Fitting(reply, serialize, cap) || cap == 0)
            && (rows < cap ==> !Fitting(reply, serialize, rows + 1))
            && (rows == 0 || Fitting(reply, serialize, rows))
  {
    var cap := Min(most, RESULT_BYTES);
    if !Fitting(reply, serialize, cap) && cap > 0 {
      BisectedIsAnEdge(FitsAt(reply, serialize), 0, cap);
    }
  }

  /** Fewer rows never take more room. */
  ghost predicate DownwardClosed<I, T>(reply: Reply<I, T>, serialize: Serializer<T>, most: nat) {
    forall i, j | 0 <= i <= j <= most && Fitting(reply, serialize, j) :: Fitting(reply, serialize, i)
  }

  /** Each row of the longest list shown takes at least a byte. */
  ghost predicate RowsTakeRoom<I, T>(reply: Reply<I, T>, serialize: Serializer<T>, most: nat) {
    forall rows | 0 <= rows <= most :: rows <= Total(serialize(rows, reply.At(rows)))
  }

  /** Where fewer rows take no more room, no larger row count fits: neither bisecting nor the cap loses rows. */
  lemma SettlesOnTheLargest<I, T>(reply: Reply<I, T>, serialize: Serializer<T>, most: nat, rows: nat)
    requires DownwardClosed(reply, serialize, most) && RowsTakeRoom(reply, serialize, most)
    requires rows <= most && Fitting(reply, serialize, rows)
    ensures rows <= Settled(reply, serialize, most)
    ensures Fitting(reply, serialize, Settled(reply, serialize, most))
  {
    SettlesOnAnEdge(reply, serialize, most);
    var settled := Settled(reply, serialize, most);
    assert rows <= RESULT_BYTES by {
      assert rows <= Total(serialize(rows, reply.At(rows)));
    }
    assert Fitting(reply, serialize, 0);
  }

  // ------------------------------------------------------- when the largest is found

  /** A count that fits is within the cap: beyond the budget each row takes room there is not. */
  lemma FitsWithinCap<I, T>(reply: Reply<I, T>, serialize: Serializer<T>, most: nat, rows: nat)
    requires RowsTakeRoom(reply, serialize, most)
    requires rows <= most && Fitting(reply, serialize, rows)
    ensures rows <= Min(most, RESULT_BYTES)
  {
    assert rows <= Total(serialize(rows, reply.At(rows)));
  }

  /** The largest count up to `most` that fits, or none at all. */
  function LargestFit(fits: nat -> bool, most: nat): (goal: nat)
    ensures goal <= most && (goal == 0 || fits(goal))
    ensures forall rows | goal < rows <= most :: !fits(rows)
  {
    if most == 0 || fits(most) then most else LargestFit(fits, most - 1)
  }

  /** The counts up to `goal` that halving towards `goal` looks at, whatever fits. */
  function Aim(goal: nat, fitting: nat, tooMany: nat): set<nat>
    decreases tooMany - fitting
  {
    if tooMany <= fitting + 1 then {}
    else
      var rows := Middle(fitting, tooMany);
      if rows <= goal then {rows} + Aim(goal, rows, tooMany) else Aim(goal, fitting, rows)
  }

  lemma {:induction false} BisectedStaysBelow(fits: nat -> bool, fitting: nat, tooMany: nat)
    requires fitting < tooMany
    ensures fitting <= Bisected(fits, fitting, tooMany) < tooMany
    decreases tooMany - fitting
  {
    if tooMany > fitting + 1 {
      var rows := Middle(fitting, tooMany);
      if fits(rows) { BisectedStaysBelow(fits, rows, tooMany); }
      else { BisectedStaysBelow(fits, fitting, rows); }
    }
  }

  /** Bisecting ends on the goal exactly when the counts below it on the way there fit. */
  lemma {:induction false} BisectedHitsExactlyWhen(fits: nat -> bool, goal: nat, fitting: nat, tooMany: nat)
    requires fitting <= goal < tooMany
    requires forall rows | goal < rows <= tooMany :: !fits(rows)
    ensures Bisected(fits, fitting, tooMany) == goal <==>
              forall rows | rows in Aim(goal, fitting, tooMany) :: fits(rows)
    decreases tooMany - fitting
  {
    if tooMany > fitting + 1 {
      var rows := Middle(fitting, tooMany);
      if rows > goal {
        BisectedHitsExactlyWhen(fits, goal, fitting, rows);
      } else if fits(rows) {
        BisectedHitsExactlyWhen(fits, goal, rows, tooMany);
      } else {
        BisectedStaysBelow(fits, fitting, rows);
        assert rows in Aim(goal, fitting, tooMany);
      }
    }
  }

  /**
   * The search settles on the largest count that fits exactly when that count is the cap, or
   * the smaller counts that halving towards it looks at fit too.
   */
  lemma SettlesOnTheLargestExactlyWhen<I, T>(reply: Reply<I, T>, serialize: Serializer<T>, most: nat)
    requires RowsTakeRoom(reply, serialize, most)
    ensures var cap, goal := Min(most, RESULT_BYTES), LargestFit(FitsAt(reply, serialize), most);
            Settled(reply, serialize, most) == goal <==>
              (goal == cap || forall rows | rows in Aim(goal, 0, cap) :: FitsAt(reply, serialize)(rows))
  {
    var fits := FitsAt(reply, serialize);
    var cap, goal := Min(most, RESULT_BYTES), LargestFit(fits, most);
    if fits(goal) { FitsWithinCap(reply, serialize, most, goal); }
    assert goal <= cap && (cap != goal ==> !fits(cap));
    if goal < cap { BisectedHitsExactlyWhen(fits, goal, 0, cap); }
  }

  // ------------------------------------------------- a reply that shows fewer than fit

  /** What the note says of one list. */
  function CutText<T>(list: Shown<T>): string {
    PrintInt(list.leftOut) + " of " + PrintInt(list.leftOut + |list.rows|) + " " + list.name
  }

  function CutTexts<T>(shown: seq<Shown<T>>): seq<string> {
    if shown == [] then []
    else (if shown[0].leftOut > 0 then [CutText(shown[0])] else []) + CutTexts(shown[1..])
  }

  function JoinAnd(cuts: seq<string>): string {
    if cuts == [] then ""
    else if |cuts| == 1 then cuts[0]
    else cuts[0] + " and " + JoinAnd(cuts[1..])
  }

  const LEFT_OUT := " left out to fit the result; the totals above cover every row"

  function NoteSizes<T>(shown: seq<Shown<T>>): seq<nat> {
    var cuts := CutTexts(shown);
    if cuts == [] then [] else [|JoinAnd(cuts) + LEFT_OUT|]
  }

  function RowSizes(shown: seq<Shown<nat>>): seq<nat> {
    if shown == [] then [] else shown[0].rows + RowSizes(shown[1..])
  }

  /** The reply's other fields leave room for two rows and a note on two lists. */
  const OTHER_FIELDS: nat := RESULT_BYTES - 38 - |LEFT_OUT|

  /** The sizes of the rows, given as numbers, and of the note on the lists cut. */
  function NotedSizes(rows: nat, shown: seq<Shown<nat>>): seq<nat> {
    [OTHER_FIELDS] + (RowSizes(shown) + NoteSizes(shown))
  }

  lemma {:induction false} TotalJoins(left: seq<nat>, right: seq<nat>)
    ensures Total(left + right) == Total(left) + Total(right)
    decreases |left|
  {
    if left == [] {
      assert left + right == right;
    } else {
      assert (left + right)[1..] == left[1..] + right;
      TotalJoins(left[1..], right);
    }
  }

  /** A reply of three short rows in one list, and three and a long one in another. */
  ghost predicate IsUneven(reply: Reply<nat, nat>) {
    && reply.nested == [] && |reply.plain| == 2
    && reply.plain[0].name == "members" && reply.plain[0].all == [1, 1, 1]
    && reply.plain[1].name == "partitions" && reply.plain[1].all == [1, 1, 1, 1000]
  }

  lemma TwoLists(first: Shown<nat>, second: Shown<nat>)
    ensures RowSizes([first, second]) == first.rows + second.rows
    ensures CutTexts([first, second]) ==
              (if first.leftOut > 0 then [CutText(first)] else [])
              + (if second.leftOut > 0 then [CutText(second)] else [])
  {
    assert [first, second][1..] == [second] && [second][1..] == [];
    assert RowSizes([second]) == second.rows + [];
    assert CutTexts([second]) == (if second.leftOut > 0 then [CutText(second)] else []) + [];
  }

  lemma DigitLength(n: nat)
    requires n < 10
    ensures |PrintInt(n)| == 1
  {
  }

  lemma CutLength(list: Shown<nat>)
    requires list.leftOut + |list.rows| < 10
    ensures |CutText(list)| == 7 + |list.name|
  {
    DigitLength(list.leftOut);
    DigitLength(list.leftOut + |list.rows|);
  }

  /** The note of two lists of the names and lengths above. */
  lemma NoteLength(first: Shown<nat>, second: Shown<nat>)
    requires first.name == "members" && first.leftOut + |first.rows| == 3
    requires second.name == "partitions" && second.leftOut + |second.rows| == 4
    ensures Total(NoteSizes([first, second])) ==
              if first.leftOut > 0 && second.leftOut > 0 then 36 + |LEFT_OUT|
              else if first.leftOut > 0 then 14 + |LEFT_OUT|
              else if second.leftOut > 0 then 17 + |LEFT_OUT|
              else 0
  {
    TwoLists(first, second);
    CutLength(first);
    CutLength(second);
    if first.leftOut > 0 && second.leftOut > 0 {
      var cuts := [CutText(first), CutText(second)];
      assert CutTexts([first, second]) == cuts && cuts[1..] == [CutText(second)];
      assert JoinAnd(cuts) == CutText(first) + " and " + CutText(second);
    }
    TotalOfOne(NoteSizes([first, second]));
  }

  lemma TotalOfOne(sizes: seq<nat>)
    ensures |sizes| == 0 ==> Total(sizes) == 0
    ensures |sizes| == 1 ==> Total(sizes) == sizes[0]
  {
  }

  lemma UnevenTotal(reply: Reply<nat, nat>, rows: nat)
    requires IsUneven(reply)
    ensures var first, second := reply.plain[0].At(rows), reply.plain[1].At(rows);
            Total(NotedSizes(rows, reply.At(rows))) ==
              OTHER_FIELDS + Total(first.rows) + Total(second.rows) + Total(NoteSizes([first, second]))
  {
    var first, second := reply.plain[0].At(rows), reply.plain[1].At(rows);
    assert reply.At(rows) == [first, second];
    TwoLists(first, second);
    TotalJoins([OTHER_FIELDS], RowSizes([first, second]) + NoteSizes([first, second]));
    TotalOfOne([OTHER_FIELDS]);
    TotalJoins(RowSizes([first, second]), NoteSizes([first, second]));
    TotalJoins(first.rows, second.rows);
  }

  lemma ShortTotals()
    ensures Total([1]) == 1 && Total([1, 1]) == 2 && Total([1, 1, 1]) == 3 && Total([1, 1, 1, 1000]) == 1003
  {
    assert [1, 1][1..] == [1] && [1, 1, 1][1..] == [1, 1];
    assert [1000][1..] == [] && [1, 1000][1..] == [1000] && [1, 1, 1000][1..] == [1, 1000];
    assert [1, 1, 1, 1000][1..] == [1, 1, 1000];
    assert Total([1000]) == 1000 && Total([1, 1000]) == 1001;
  }

  lemma UnevenFits(reply: Reply<nat, nat>, rows: nat)
    requires IsUneven(reply) && 1 <= rows <= 4
    ensures Fitting(reply, NotedSizes, rows) <==> rows == 1 || rows == 3
  {
    var first, second := reply.plain[0].At(rows), reply.plain[1].At(rows);
    UnevenTotal(reply, rows);
    NoteLength(first, second);
    ShortTotals();
    assert [1, 1, 1][..1] == [1] && [1, 1, 1][..2] == [1, 1] && [1, 1, 1][..3] == [1, 1, 1];
    assert [1, 1, 1, 1000][..1] == [1] && [1, 1, 1, 1000][..2] == [1, 1] && [1, 1, 1, 1000][..3] == [1, 1, 1];
    assert [1, 1, 1, 1000][..4] == [1, 1, 1, 1000];
  }

  /**
   * A reply the search shows one row of each list of, though three fit: showing three cuts one
   * list, so the note names one, while showing two cuts both.
   */
  lemma SearchMissesALargerCount(reply: Reply<nat, nat>)
    requires IsUneven(reply)
    ensures Settled(reply, NotedSizes, 4) == 1 && Fitting(reply, NotedSizes, 3)
  {
    UnevenFits(reply, 1);
    UnevenFits(reply, 2);
    UnevenFits(reply, 3);
    UnevenFits(reply, 4);
    var fits := FitsAt(reply, NotedSizes);
    assert Middle(0, 4) == 2 && Middle(0, 2) == 1;
    assert Bisected(fits, 0, 4) == Bisected(fits, 0, 2) == Bisected(fits, 1, 2);
  }
}
