/** The cursor a page of records hands to the next one, printed and parsed. */
module RecordCursor {
  import opened FixedWidth
  import opened Sequences
  import opened SortedInts
  import opened Wrappers
  import opened Text

  datatype RecordOrder = Newest | Oldest {
    function Flipped(): RecordOrder {
      if Newest? then Oldest else Newest
    }
  }

  datatype Direction = Forward | Backward

  datatype QueryError = InvalidCursor

  type Offsets = map<int, int>

  datatype Remaining = From(offsets: Offsets) | Before(offsets: Offsets) {
    static function Walking(walk: RecordOrder, offsets: Offsets): Remaining {
      if walk.Oldest? then From(offsets) else Before(offsets)
    }

    function Walk(): RecordOrder {
      if From? then Oldest else Newest
    }

    /** The records a walk from here still has to visit. */
    predicate Covers(partition: int, offset: int) {
      && partition in offsets
      && if From? then offsets[partition] <= offset else offset < offsets[partition]
    }
  }

  datatype Cursor = Cursor(order: RecordOrder, remaining: Remaining) {
    function Direction(): Direction {
      if remaining.Walk() == order then Forward else Backward
    }

    /** Partitions fit an i32 and offsets an i64, as the server's types make them. */
    predicate Typed() {
      forall p | p in remaining.offsets ::
        I32_MIN <= p <= I32_MAX && I64_MIN <= remaining.offsets[p] <= I64_MAX
    }

    predicate Valid() {
      ValidOffsets(remaining.offsets)
    }
  }

  predicate ValidOffsets(offsets: Offsets) {
    forall p | p in offsets :: I32_MIN <= p <= I32_MAX && 0 <= offsets[p] <= I64_MAX
  }

  function At(order: RecordOrder, partition: int, offset: int): Cursor {
    var nearEnd := if order.Oldest? then offset else SaturatingAdd(offset, 1);
    Cursor(order, Remaining.Walking(order, map[partition := nearEnd]))
  }

  /**
   * A cursor at an offset covers that record and everything past it in its
   * order, except that newest-first at the largest offset misses that record.
   */
  lemma AtCoversFromOffset(order: RecordOrder, partition: int, offset: int, record: int)
    requires I64_MIN <= offset <= I64_MAX && I64_MIN <= record <= I64_MAX
    ensures At(order, partition, offset).Direction() == Forward
    ensures At(order, partition, offset).remaining.Covers(partition, offset)
            <==> !(order.Newest? && offset == I64_MAX)
    ensures !(order.Newest? && offset == I64_MAX) ==>
              (At(order, partition, offset).remaining.Covers(partition, record)
               <==> if order.Oldest? then offset <= record else record <= offset)
  {
  }

  // ------------------------------------------------------------------- parsing

  function ParseEntry(part: string): Option<(int, int)> {
    var i := Find(part, ':');
    if i == |part| then None
    else match (ParseInt(part[..i], I32_MIN, I32_MAX), ParseInt(part[i + 1..], I64_MIN, I64_MAX))
      case (Some(partition), Some(offset)) => Some((partition, offset))
      case _ => None
  }

  function ParseEntries(parts: seq<string>, offsets: Offsets): Option<Offsets> {
    if parts == [] then Some(offsets)
    else if parts[0] == [] then ParseEntries(parts[1..], offsets)
    else match ParseEntry(parts[0])
      case None => None
      case Some((partition, offset)) =>
        if offset < 0 || partition in offsets then None
        else ParseEntries(parts[1..], offsets[partition := offset])
  }

  function ParseOrder(text: string): Option<RecordOrder> {
    if text == "n" then Some(Newest) else if text == "o" then Some(Oldest) else None
  }

  function ParseWalk(text: string, order: RecordOrder): Option<RecordOrder> {
    if text == "f" then Some(order) else if text == "b" then Some(order.Flipped()) else None
  }

  function ParseParts(parts: seq<string>): Result<Cursor, QueryError> {
    if |parts| < 3 || parts[0] != "v2" then Failure(InvalidCursor)
    else match ParseOrder(parts[1])
      case None => Failure(InvalidCursor)
      case Some(order) =>
        match ParseWalk(parts[2], order)
        case None => Failure(InvalidCursor)
        case Some(walk) =>
          match ParseEntries(Split(if |parts| > 3 then parts[3] else [], ','), map[])
          case None => Failure(InvalidCursor)
          case Some(offsets) => Success(Cursor(order, Remaining.Walking(walk, offsets)))
  }

  function Parsed(value: string): Result<Cursor, QueryError> {
    ParseParts(SplitN(Trim(value), ':', 4))
  }

  method Parse(value: string) returns (result: Result<Cursor, QueryError>)
    ensures result == Parsed(value)
  {
    var parts := SplitN(Trim(value), ':', 4);
    if |parts| < 3 || parts[0] != "v2" {
      return Failure(InvalidCursor);
    }
    var order := ParseOrder(parts[1]);
    if order.None? {
      return Failure(InvalidCursor);
    }
    var walk := ParseWalk(parts[2], order.value);
    if walk.None? {
      return Failure(InvalidCursor);
    }
    var offsets: Offsets := map[];
    var entries := Split(if |parts| > 3 then parts[3] else [], ',');
    for i := 0 to |entries|
      invariant ParseEntries(entries[i..], offsets) == ParseEntries(entries, map[])
    {
      if entries[i] == [] {
        continue;
      }
      var entry := ParseEntry(entries[i]);
      if entry.None? {
        return Failure(InvalidCursor);
      }
      var (partition, offset) := entry.value;
      if offset < 0 || partition in offsets {
        return Failure(InvalidCursor);
      }
      offsets := offsets[partition := offset];
    }
    result := Success(Cursor(order.value, Remaining.Walking(walk.value, offsets)));
  }

  /** Whitespace around a cursor changes nothing about what it parses to. */
  lemma OuterWhitespaceIsIgnored(before: string, value: string, after: string)
    requires forall c | c in before + after :: c in [' ', '\t', '\n', '\r'] || Whitespace(c)
    ensures Parsed(before + value + after) == Parsed(value)
  {
    assert forall c | c in before || c in after :: c in before + after;
    TrimIgnoresOuter(before, value, after);
  }

  lemma {:induction false} ParsedEntriesValid(parts: seq<string>, offsets: Offsets)
    requires ValidOffsets(offsets) && ParseEntries(parts, offsets).Some?
    ensures ValidOffsets(ParseEntries(parts, offsets).value)
  {
    if parts == [] {
    } else if parts[0] == [] {
      ParsedEntriesValid(parts[1..], offsets);
    } else {
      var (partition, offset) := ParseEntry(parts[0]).value;
      ParsedEntriesValid(parts[1..], offsets[partition := offset]);
    }
  }

  /** Whatever parses is in range with no negative offset, and reads as its letters say. */
  lemma ParsedIsValid(value: string)
    requires Parsed(value).Success?
    ensures var parts := SplitN(Trim(value), ':', 4);
            var cursor := Parsed(value).value;
            && cursor.Valid()
            && |parts| >= 3
            && (cursor.order == if parts[1] == "n" then Newest else Oldest)
            && (cursor.Direction() == if parts[2] == "f" then Forward else Backward)
            && (cursor.remaining.Walk() == cursor.order <==> parts[2] == "f")
  {
    var parts := SplitN(Trim(value), ':', 4);
    ParsedEntriesValid(Split(if |parts| > 3 then parts[3] else [], ','), map[]);
  }

  // ------------------------------------------------------------------ printing

  function Entry(partition: int, offset: int): string {
    PrintInt(partition) + [':'] + PrintInt(offset)
  }

  function Entries(partitions: seq<int>, offsets: Offsets): seq<string>
    requires forall p | p in partitions :: p in offsets
  {
    seq(|partitions|, i requires 0 <= i < |partitions| => Entry(partitions[i], offsets[partitions[i]]))
  }

  function OrderLetter(order: RecordOrder): string {
    if order.Newest? then ['n'] else ['o']
  }

  function DirectionLetter(direction: Direction): string {
    if direction.Forward? then ['f'] else ['b']
  }

  function Letters(order: RecordOrder, direction: Direction): string {
    "v2" + [':'] + OrderLetter(order) + [':'] + DirectionLetter(direction) + [':']
  }

  ghost function Body(offsets: Offsets): string {
    AscendingListsOnce(offsets.Keys);
    Join(Entries(Ascending(offsets.Keys), offsets), ',')
  }

  ghost function Printed(cursor: Cursor): string {
    Letters(cursor.order, cursor.Direction()) + Body(cursor.remaining.offsets)
  }

  lemma {:induction false} JoinGrows(parts: seq<string>, last: string, separator: char)
    requires parts != []
    ensures Join(parts + [last], separator) == Join(parts, separator) + [separator] + last
  {
    if |parts| == 1 {
      assert (parts + [last])[1..] == [last];
    } else {
      assert (parts + [last])[1..] == parts[1..] + [last];
      JoinGrows(parts[1..], last, separator);
      var first, rest := parts[0] + [separator], Join(parts[1..], separator);
      Assoc(first, rest, [separator]);
      Assoc(first, rest + [separator], last);
    }
  }

  lemma EntryAppends(written: seq<int>, partition: int, offsets: Offsets)
    requires forall p | p in written :: p in offsets
    requires partition in offsets
    ensures var entry := Entry(partition, offsets[partition]);
            Join(Entries(written + [partition], offsets), ',')
            == Join(Entries(written, offsets), ',') + ((if written == [] then [] else [',']) + entry)
  {
    var entry, entries := Entry(partition, offsets[partition]), Entries(written, offsets);
    assert Entries(written + [partition], offsets) == entries + [entry];
    if written == [] {
      assert entries + [entry] == [entry];
    } else {
      JoinGrows(entries, entry, ',');
      Assoc(Join(entries, ','), [','], entry);
    }
  }

  lemma LeastFirst(written: seq<int>, left: set<int>, least: int)
    requires least in left && forall k | k in left :: least <= k
    ensures written + Ascending(left) == written + [least] + Ascending(left - {least})
  {
    Assoc(written, [least], Ascending(left - {least}));
  }

  lemma EntryShown(letters: string, written: seq<int>, partition: int, offsets: Offsets)
    requires partition in offsets && forall p | p in written :: p in offsets
    ensures forall p | p in written + [partition] :: p in offsets
    ensures letters + Join(Entries(written + [partition], offsets), ',')
              == letters + Join(Entries(written, offsets), ',')
                 + ((if |written| == 0 then [] else [',']) + Entry(partition, offsets[partition]))
  {
    EntryAppends(written, partition, offsets);
    Assoc(letters, Join(Entries(written, offsets), ','),
          (if |written| == 0 then [] else [',']) + Entry(partition, offsets[partition]));
  }

  /** The text shows the entries written so far, and those left come after them. */
  ghost predicate Shows(text: string, letters: string, written: seq<int>, left: set<int>, offsets: Offsets) {
    && left <= offsets.Keys && (forall p | p in written :: p in offsets)
    && written + Ascending(left) == Ascending(offsets.Keys)
    && text == letters + Join(Entries(written, offsets), ',')
  }

  lemma ShowsNext(
      text: string, letters: string, written: seq<int>, left: set<int>, offsets: Offsets, least: int,
      separator: string)
    requires Shows(text, letters, written, left, offsets)
    requires least in left && forall k | k in left :: least <= k
    requires separator == if |written| == 0 then [] else [',']
    ensures Shows(text + (separator + Entry(least, offsets[least])),
                  letters, written + [least], left - {least}, offsets)
  {
    LeastFirst(written, left, least);
    EntryShown(letters, written, least, offsets);
  }

  lemma ShowsNone(letters: string, offsets: Offsets)
    ensures Shows(letters, letters, [], offsets.Keys, offsets)
  {
    assert Join(Entries([], offsets), ',') == [] && letters + [] == letters;
    assert [] + Ascending(offsets.Keys) == Ascending(offsets.Keys);
  }

  lemma ShowsAll(text: string, letters: string, written: seq<int>, offsets: Offsets)
    requires Shows(text, letters, written, {}, offsets)
    ensures text == letters + Body(offsets)
  {
    AscendingListsOnce(offsets.Keys);
    assert written + [] == written;
  }

  /** Writes the entries in ascending partition order, as iterating the sorted map does. */
  method Print(cursor: Cursor) returns (text: string)
    ensures text == Printed(cursor)
  {
    var offsets := cursor.remaining.offsets;
    var letters := Letters(cursor.order, cursor.Direction());
    text := letters;
    ghost var written: seq<int> := [];
    var left := offsets.Keys;
    var index := 0;
    ShowsNone(letters, offsets);
    while left != {}
      invariant index == |written|
      invariant Shows(text, letters, written, left, offsets)
      decreases left
    {
      LeastExists(left);
      var partition :| partition in left && forall k | k in left :: partition <= k;
      var separator := if index == 0 then [] else [','];
      ShowsNext(text, letters, written, left, offsets, partition, separator);
      text := text + (separator + Entry(partition, offsets[partition]));
      left := left - {partition};
      index := index + 1;
      written := written + [partition];
    }
    ShowsAll(text, letters, written, offsets);
  }

  // --------------------------------------------------------------- round trips

  lemma EntryParses(partition: int, offset: int)
    requires I32_MIN <= partition <= I32_MAX && I64_MIN <= offset <= I64_MAX
    ensures ParseEntry(Entry(partition, offset)) == Some((partition, offset))
    ensures Entry(partition, offset) != [] && ',' !in Entry(partition, offset)
  {
    PrintIntParses(partition, I32_MIN, I32_MAX);
    PrintIntParses(offset, I64_MIN, I64_MAX);
    EntrySplits(PrintInt(partition), PrintInt(offset));
  }

  lemma EntrySplits(head: string, tail: string)
    requires ':' !in head
    ensures var entry := head + [':'] + tail;
            Find(entry, ':') == |head| && entry[..|head|] == head && entry[|head| + 1..] == tail
  {
    FindSkips(head, ':', tail);
  }

  ghost function Held(partitions: seq<int>, offsets: Offsets): Offsets {
    map p | p in partitions && p in offsets :: offsets[p]
  }

  lemma HeldStep(partitions: seq<int>, offsets: Offsets, parsed: Offsets)
    requires partitions != [] && partitions[0] in offsets
    requires forall p | p in partitions :: p !in parsed
    ensures var p := partitions[0];
            parsed[p := offsets[p]] + Held(partitions[1..], offsets) == parsed + Held(partitions, offsets)
  {
    assert partitions == [partitions[0]] + partitions[1..];
  }

  lemma ParseEntriesStep(parts: seq<string>, parsed: Offsets, partition: int, offset: int)
    requires parts != [] && parts[0] != [] && ParseEntry(parts[0]) == Some((partition, offset))
    requires 0 <= offset && partition !in parsed
    ensures ParseEntries(parts, parsed) == ParseEntries(parts[1..], parsed[partition := offset])
  {
  }

  lemma EntriesTail(partitions: seq<int>, offsets: Offsets)
    requires partitions != [] && forall p | p in partitions :: p in offsets
    ensures var entries := Entries(partitions, offsets);
            entries[0] == Entry(partitions[0], offsets[partitions[0]])
            && entries[1..] == Entries(partitions[1..], offsets)
  {
  }

  lemma {:induction false} EntriesParse(
      entries: seq<string>, partitions: seq<int>, offsets: Offsets, parsed: Offsets)
    requires ValidOffsets(offsets) && StrictlyAscending(partitions)
    requires forall p | p in partitions :: p in offsets && p !in parsed
    requires entries == Entries(partitions, offsets)
    ensures ParseEntries(entries, parsed) == Some(parsed + Held(partitions, offsets))
  {
    if partitions == [] {
      assert parsed + Held(partitions, offsets) == parsed;
    } else {
      var p := partitions[0];
      EntryParses(p, offsets[p]);
      EntriesTail(partitions, offsets);
      ParseEntriesStep(entries, parsed, p, offsets[p]);
      HeldStep(partitions, offsets, parsed);
      EntriesParse(entries[1..], partitions[1..], offsets, parsed[p := offsets[p]]);
    }
  }

  lemma EntriesHoldNoComma(partitions: seq<int>, offsets: Offsets)
    requires ValidOffsets(offsets) && forall p | p in partitions :: p in offsets
    ensures forall e | e in Entries(partitions, offsets) :: ',' !in e
  {
    var entries := Entries(partitions, offsets);
    forall e | e in entries ensures ',' !in e {
      var i :| 0 <= i < |entries| && e == entries[i];
      EntryParses(partitions[i], offsets[partitions[i]]);
    }
  }

  lemma BodyParses(offsets: Offsets)
    requires ValidOffsets(offsets)
    ensures ParseEntries(Split(Body(offsets), ','), map[]) == Some(offsets)
  {
    var partitions := Ascending(offsets.Keys);
    AscendingListsOnce(offsets.Keys);
    var entries := Entries(partitions, offsets);
    EntriesHoldNoComma(partitions, offsets);
    EntriesParse(entries, partitions, offsets, map[]);
    assert map[] + Held(partitions, offsets) == offsets;
    EntriesSplit(entries);
  }

  lemma EntriesSplit(entries: seq<string>)
    requires forall e | e in entries :: ',' !in e
    ensures ParseEntries(Split(Join(entries, ','), ','), map[]) == ParseEntries(entries, map[])
  {
    if entries != [] { SplitUndoesJoin(entries, ','); }
  }

  lemma {:induction false} JoinEndsInDigit(entries: seq<string>)
    requires entries != []
    requires forall e | e in entries :: e != [] && Digit(e[|e| - 1])
    ensures var body := Join(entries, ',');
            body != [] && Digit(body[|body| - 1])
  {
    assert entries[0] in entries;
    if |entries| > 1 { JoinEndsInDigit(entries[1..]); }
  }

  lemma BodyEndsInDigit(offsets: Offsets)
    ensures Body(offsets) == [] || Digit(Body(offsets)[|Body(offsets)| - 1])
  {
    var partitions := Ascending(offsets.Keys);
    AscendingListsOnce(offsets.Keys);
    var entries := Entries(partitions, offsets);
    forall e | e in entries ensures e != [] && Digit(e[|e| - 1]) {
      var i :| 0 <= i < |entries| && e == entries[i];
      EntryEndsInDigit(partitions[i], offsets[partitions[i]]);
    }
    if entries != [] { JoinEndsInDigit(entries); }
  }

  lemma EntryEndsInDigit(partition: int, offset: int)
    ensures var entry := Entry(partition, offset);
            entry != [] && Digit(entry[|entry| - 1])
  {
    PrintIntParses(offset, I64_MIN, I64_MAX);
  }

  lemma PrintedIsTrimmed(cursor: Cursor)
    ensures Trim(Printed(cursor)) == Printed(cursor)
  {
    var letters, body := Letters(cursor.order, cursor.Direction()), Body(cursor.remaining.offsets);
    BodyEndsInDigit(cursor.remaining.offsets);
    assert letters[0] == 'v' && letters[|letters| - 1] == ':';
    assert (letters + body)[|letters + body| - 1] == if body == [] then ':' else body[|body| - 1];
    TrimKeeps(letters + body);
  }

  lemma TwoPartsSplit(a: string, b: string)
    requires ':' !in a
    ensures SplitN(a + [':'] + b, ':', 2) == [a, b]
  {
    SplitNStep(a, ':', b, 2);
  }

  lemma ThreePartsSplit(a: string, b: string, c: string)
    requires ':' !in a && ':' !in b
    ensures SplitN(a + [':'] + (b + [':'] + c), ':', 3) == [a, b, c]
  {
    SplitNStep(a, ':', b + [':'] + c, 3);
    TwoPartsSplit(b, c);
  }

  lemma FourPartsSplit(a: string, b: string, c: string, d: string)
    requires ':' !in a && ':' !in b && ':' !in c
    ensures SplitN(a + [':'] + b + [':'] + c + [':'] + d, ':', 4) == [a, b, c, d]
  {
    var last := c + [':'] + d;
    SplitNStep(a, ':', b + [':'] + last, 4);
    ThreePartsSplit(b, c, d);
    Assoc4(a + [':'] + b + [':'], c, [':'], d);
    Assoc4(a + [':'], b, [':'], last);
  }

  lemma PartsParse(cursor: Cursor, body: string)
    requires ParseEntries(Split(body, ','), map[]) == Some(cursor.remaining.offsets)
    ensures ParseParts(["v2", OrderLetter(cursor.order), DirectionLetter(cursor.Direction()), body])
         == Success(cursor)
  {
    assert ParseOrder(OrderLetter(cursor.order)) == Some(cursor.order);
    assert ParseWalk(DirectionLetter(cursor.Direction()), cursor.order) == Some(cursor.remaining.Walk());
  }

  /** A cursor parses back from its print exactly when none of its offsets is negative. */
  lemma RoundTripsExactlyWhenValid(cursor: Cursor)
    requires cursor.Typed()
    ensures Parsed(Printed(cursor)) == Success(cursor) <==> cursor.Valid()
  {
    if cursor.Valid() {
      PrintedIsTrimmed(cursor);
      FourPartsSplit("v2", OrderLetter(cursor.order), DirectionLetter(cursor.Direction()),
                     Body(cursor.remaining.offsets));
      BodyParses(cursor.remaining.offsets);
      PartsParse(cursor, Body(cursor.remaining.offsets));
    }
    if Parsed(Printed(cursor)) == Success(cursor) {
      ParsedIsValid(Printed(cursor));
    }
  }

  /** Every string that parses has one canonical print, which parses to the same cursor. */
  lemma ParsedPrintsCanonically(value: string, other: string)
    requires Parsed(value).Success? && Parsed(other).Success?
    ensures Parsed(Printed(Parsed(value).value)) == Parsed(value)
    ensures Parsed(value) == Parsed(other)
            <==> Printed(Parsed(value).value) == Printed(Parsed(other).value)
  {
    ParsedIsValid(value);
    ParsedIsValid(other);
    RoundTripsExactlyWhenValid(Parsed(value).value);
    RoundTripsExactlyWhenValid(Parsed(other).value);
  }

  // ------------------------------------------------------- exactly what is accepted

  /** A partition of 32 bits and an offset of 64, with a colon between them. */
  ghost predicate IsEntry(part: string, partition: int, offset: int, head: string, tail: string) {
    && part == head + [':'] + tail
    && IsNumeral(head, partition, -0x8000_0000, 0x7fff_ffff)
    && IsNumeral(tail, offset, -0x8000_0000_0000_0000, 0x7fff_ffff_ffff_ffff)
  }

  /** An entry reads as a partition and an offset exactly when it is the two numbers around a colon. */
  lemma EntryReadsExactly(part: string, partition: int, offset: int)
    ensures ParseEntry(part) == Some((partition, offset)) <==>
              exists head, tail :: IsEntry(part, partition, offset, head, tail)
  {
    if ParseEntry(part) == Some((partition, offset)) {
      var i := Find(part, ':');
      ParsesExactlyNumerals(part[..i], I32_MIN, I32_MAX, partition);
      ParsesExactlyNumerals(part[i + 1..], I64_MIN, I64_MAX, offset);
      assert IsEntry(part, partition, offset, part[..i], part[i + 1..]);
    }
    if head, tail :| IsEntry(part, partition, offset, head, tail) {
      NumeralHolds(head, partition, I32_MIN, I32_MAX);
      assert ':' !in head;
      ParsesExactlyNumerals(head, I32_MIN, I32_MAX, partition);
      ParsesExactlyNumerals(tail, I64_MIN, I64_MAX, offset);
      EntrySplits(head, tail);
    }
  }

  predicate Reads(part: string, partition: int, offset: int) {
    part != [] && ParseEntry(part) == Some((partition, offset))
  }

  /** An entry may be empty, or name a partition and an offset that is not negative. */
  predicate Readable(part: string) {
    part == [] || (ParseEntry(part).Some? && ParseEntry(part).value.1 >= 0)
  }

  predicate SamePartition(left: string, right: string) {
    && left != [] && right != []
    && ParseEntry(left).Some? && ParseEntry(right).Some?
    && ParseEntry(left).value.0 == ParseEntry(right).value.0
  }

  ghost predicate AllReadable(parts: seq<string>) {
    forall part | part in parts :: Readable(part)
  }

  ghost predicate NoneRepeats(parts: seq<string>) {
    forall i, j | 0 <= i < j < |parts| :: !SamePartition(parts[i], parts[j])
  }

  ghost predicate NoneHeld(parts: seq<string>, offsets: Offsets) {
    forall part | part in parts && part != [] && ParseEntry(part).Some? :: ParseEntry(part).value.0 !in offsets
  }

  /** The offsets are those held before and exactly those the entries read. */
  ghost predicate Collected(offsets: Offsets, before: Offsets, parts: seq<string>) {
    forall p, o :: Holds(offsets, p, o) <==> Holds(before, p, o) || ReadIn(parts, p, o)
  }

  predicate Holds(offsets: Offsets, partition: int, offset: int) {
    partition in offsets && offsets[partition] == offset
  }

  predicate ReadIn(parts: seq<string>, partition: int, offset: int) {
    exists part :: part in parts && Reads(part, partition, offset)
  }

  lemma NoneRepeatsSplits(parts: seq<string>)
    requires parts != []
    ensures NoneRepeats(parts) <==>
              NoneRepeats(parts[1..]) && forall part | part in parts[1..] :: !SamePartition(parts[0], part)
  {
    var rest := parts[1..];
    if NoneRepeats(parts) {
      forall part | part in rest ensures !SamePartition(parts[0], part) {
        var i :| 0 <= i < |rest| && rest[i] == part;
        assert !SamePartition(parts[0], parts[i + 1]);
      }
    }
    if NoneRepeats(rest) && forall part | part in rest :: !SamePartition(parts[0], part) {
      forall i, j | 0 <= i < j < |parts| ensures !SamePartition(parts[i], parts[j]) {
        assert parts[j] == rest[j - 1];
        if i > 0 { assert parts[i] == rest[i - 1]; }
      }
    }
  }

  lemma NoneHeldSplits(parts: seq<string>, offsets: Offsets, p: int, o: int)
    requires parts != [] && Reads(parts[0], p, o)
    ensures NoneHeld(parts, offsets) <==> p !in offsets && NoneHeld(parts[1..], offsets)
    ensures NoneHeld(parts[1..], offsets[p := o]) <==>
              NoneHeld(parts[1..], offsets) && forall part | part in parts[1..] :: !SamePartition(parts[0], part)
  {
    assert parts == [parts[0]] + parts[1..];
  }

  lemma CollectedStep(offsets: Offsets, before: Offsets, parts: seq<string>, p: int, o: int)
    requires parts != [] && Reads(parts[0], p, o) && p !in before
    requires Collected(offsets, before[p := o], parts[1..])
    ensures Collected(offsets, before, parts)
  {
    forall q, r ensures Holds(offsets, q, r) <==> Holds(before, q, r) || ReadIn(parts, q, r) {
      assert Holds(before[p := o], q, r) <==> Holds(before, q, r) || Reads(parts[0], q, r);
      ReadInSplits(parts, q, r);
    }
  }

  lemma ReadInSplits(parts: seq<string>, p: int, o: int)
    requires parts != []
    ensures ReadIn(parts, p, o) <==> Reads(parts[0], p, o) || ReadIn(parts[1..], p, o)
  {
    assert parts == [parts[0]] + parts[1..];
    assert forall part :: part in parts <==> part == parts[0] || part in parts[1..];
  }

  /** Entries are accepted exactly when each is readable and no partition is named twice. */
  lemma {:induction false} EntriesParseExactlyWhen(parts: seq<string>, before: Offsets)
    ensures ParseEntries(parts, before).Some? <==>
              AllReadable(parts) && NoneRepeats(parts) && NoneHeld(parts, before)
    ensures ParseEntries(parts, before).Some? ==> Collected(ParseEntries(parts, before).value, before, parts)
  {
    if parts != [] {
      var rest := parts[1..];
      assert parts == [parts[0]] + rest;
      NoneRepeatsSplits(parts);
      if parts[0] == [] {
        EntriesParseExactlyWhen(rest, before);
      } else if ParseEntry(parts[0]).Some? && ParseEntry(parts[0]).value.1 >= 0 {
        var (p, o) := ParseEntry(parts[0]).value;
        NoneHeldSplits(parts, before, p, o);
        EntriesParseExactlyWhen(rest, before[p := o]);
        if ParseEntries(parts, before).Some? {
          CollectedStep(ParseEntries(parts, before).value, before, parts, p, o);
        }
      } else {
        assert !Readable(parts[0]);
      }
    }
  }

  /** The comma-separated entries of a cursor's text, none when its last field is missing. */
  function EntryTexts(value: string): seq<string> {
    var parts := SplitN(Trim(value), ':', 4);
    Split(if |parts| > 3 then parts[3] else [], ',')
  }

  /**
   * A text is a cursor exactly when its version, order and direction are known and its
   * entries are readable and name no partition twice; it then holds exactly what they read.
   */
  lemma ParsesExactlyWhenReadable(value: string)
    ensures var parts := SplitN(Trim(value), ':', 4);
            Parsed(value).Success? <==>
              && |parts| >= 3 && parts[0] == "v2"
              && (parts[1] == "n" || parts[1] == "o") && (parts[2] == "f" || parts[2] == "b")
              && AllReadable(EntryTexts(value)) && NoneRepeats(EntryTexts(value))
    ensures Parsed(value).Success? ==> Collected(Parsed(value).value.remaining.offsets, map[], EntryTexts(value))
  {
    EntriesParseExactlyWhen(EntryTexts(value), map[]);
  }
}
