# klens, verified

klens is a Kafka console and MCP server. Around its network calls sit algorithms that
carry real promises: a dependency walk over possibly cyclic schema references, a text
frame that untrusted data must not break out of, a textual cursor, a pool of consumers,
lanes that keep tables up to date without rereading everything, and a handful of planners
and searches. This project models those in Dafny and proves what they promise.
`dafny verify dfyconfig.toml` checks all of it.

Code that changes state step by step is modelled by methods and classes, each proved
against a specification function or predicate; the properties are lemmas about those
specifications. What the network, the clock and other processes do enters as parameters:
a session is a function from requests to answers, a sweep or a poll carries the instants
at which it looks at the clock, and concurrent reads complete in an order chosen
nondeterministically.

| file | what it models |
|---|---|
| `DependencyOrder.dfy`, `DependencyWaves.dfy` | the wave-by-wave reads of schema references and the stack walk that orders them |
| `Json.dfy`, `UntrustedText.dfy` | JSON strings (section 7 of RFC 8259), and the frame around untrusted text |
| `Text.dfy`, `RecordCursor.dfy` | splitting, trimming and integers as text, and the record cursor over them |
| `ScanPooling.dfy`, `ScanPoolRuns.dfy` | the pool of scan consumers and its leases, as classes and as runs of steps |
| `SchemaIdLane.dfy` | the incremental table of schema ids |
| `OffsetIngest.dfy`, `OffsetRuns.dfy` | the sweeps over group offsets, one by one and in runs |
| `Session.dfy`, `WatermarkReads.dfy`, `Rates.dfy`, `Watermarking.dfy` | offset lookups, the two ways to read watermarks, topic rates, and the polls that commit them |
| `Access.dfy` | roles, groups and the compiled index |
| `TopicPatterns.dfy` | topic patterns and their overlaps |
| `ReplyFit.dfy` | fitting a reply to its byte budget |
| `OffsetReset.dfy` | planning an offset reset |
| `GroupFindings.dfy` | what is found wrong with a consumer group |
| `FixedWidth.dfy`, `Sequences.dfy`, `SortedInts.dfy`, `TopicOrder.dfy`, `Wrappers.dfy` | bounded integers, concatenation, sorted sets, the order of partitions, options and results |

## Where the code falls short of a plain promise

Each of these is stated with the exact condition under which the code does meet it.

- A cursor placed at an offset is documented to include that record in either order
  (`src/kafka/scan/cursor.rs:51`). Newest first at the largest 64-bit offset it does not,
  and nowhere else: `RecordCursor.AtCoversFromOffset`.
- A consumer that failed is out of the pool for good, never parked and never leased again,
  exactly when the failing lease had not released it yet or the consumer was out already:
  `ScanPoolRuns.FailureKeepsOutExactlyWhen`, for every run and every way it goes on.
  `ScanPoolRuns.LateFailureIsLeasedAgain` is a run in which a failure on a closed lease is
  forgotten. Only misuse of a lease gets there: `ScanSession::close`
  (`src/kafka/scan/session.rs:116`) consumes the session and only its `run` polls, so the
  server never polls a lease it has closed.
- A lag is published as often as it changes, and a subscriber holds the latest, exactly unless
  its fingerprint collides with the one lag it is compared with:
  `OffsetRuns.PublishesExactlyChanges`, `OffsetRuns.SubscriberHoldsKnownLag`.
- The order of schemas respects references exactly when no cycle is reachable:
  `DependencyOrder.TopologicalExactlyWhenAcyclic`; `DependencyOrder.CycleIsListedOutOfOrder` is a
  cycle of two.
- The watermark read that takes over cached low marks equals the full read exactly when
  each mark taken over still starts its log: `WatermarkReads.HighReadExactlyWhenCurrent`;
  `WatermarkReads.MovedStartIsMissed` is a log that was cut in between.
- The search for a fitting reply finds the largest row count that fits exactly when that count
  is the cap or the smaller counts that halving towards it looks at fit too,
  `ReplyFit.SettlesOnTheLargestExactlyWhen`; that fewer rows never take more room is enough,
  `ReplyFit.SettlesOnTheLargest`. `ReplyFit.SearchMissesALargerCount` is a reply of two lists of
  which it shows one row, though three fit.
- The incremental table of schema ids is the one a full read builds exactly when agreement at
  the one version checked of a subject stands for agreement at every version held:
  `SchemaIdLane.EqualsFullReadExactlyWhenDecided`, and over runs
  `SchemaIdLane.RunAgreesExactlyWhenDecided`. The registry client can delete a subject for good
  (`src/kafka/registry/client.rs:276-297`); one made anew that keeps the id of its latest version
  alone stays wrong, `SchemaIdLane.AnewStaysWrong`, though every request is answered,
  `SchemaIdLane.AnsweredRunGoesWrong`.
- The rates of a topic account for all it grew by exactly when it had not grown at a commit with
  no gap to measure over: `Watermarking.RatesAccountExactlyWhenNothingLost`. A heartbeat and the
  time between polls that fit within the sample limit are enough, `Watermarking.PacedIsSampled`;
  the default tuning leaves no room for the second, `Watermarking.LateGrowthIsLost`.

## Model

| member | source | states |
|---|---|---|
| DependencyOrder.InDependencyOrder | src/kafka/registry/client.rs:444-468 | The explicit stack of enter and leave visits terminates on every graph and lists what the recursive depth-first search lists. |
| DependencyOrder.FinishSearches | src/kafka/registry/client.rs:450-464 | Emptying the part of the stack above any base does a whole recursive search and then goes on with the base. |
| DependencyOrder.EmittedOnce | src/kafka/registry/client.rs:454-463 | A search emits no key twice, none entered before, and enters exactly what it emits. |
| DependencyOrder.ListsReachableOnce | src/kafka/registry/client.rs:444-468 | The walk lists every fetched schema reachable from the roots exactly once, and nothing else, cycles included. |
| DependencyOrder.ListsFetchedText | src/kafka/registry/client.rs:455-463 | Each line carries the text fetched under its key and a name some reference gave that key. |
| DependencyOrder.LinesAreNamed | src/kafka/registry/client.rs:455-463 | Each line bears the name of a root or of a reference of a fetched schema, and the text fetched under that reference's own subject and version. |
| DependencyOrder.SearchFollowsReferences | src/kafka/registry/client.rs:450-464 | While open schemas reach what is searched, each emitted one follows all it references that do not reach it back. |
| DependencyOrder.FollowsReferencesOrCycles | src/kafka/registry/client.rs:444-468 | If A references B and B is not listed before A, then B reaches A. |
| DependencyOrder.TopologicalExactlyWhenAcyclic | src/kafka/registry/client.rs:444-468 | Every schema follows all it references if and only if no cycle is reachable from the roots. |
| DependencyOrder.CycleIsListedOutOfOrder | src/kafka/registry/client.rs:444-468 | Of two schemas that reference each other both are listed, one of them before the other it references. |
| DependencyWaves.NextWave | src/kafka/registry/client.rs:208-212 | A wave holds each pending key not seen before once, and marks all of them seen. |
| DependencyWaves.Dependencies | src/kafka/registry/client.rs:199-237 | With a finite closed set of keys the waves end whatever order reads complete in; no key is read twice, every key read is the subject and version of a root or of a reference of a wanted schema, and on success all of those are read and each line carries the text read at a reference's subject and version; it succeeds exactly when every wanted read answers, the list then depends on the registry alone, and a failure is that of some wanted read. |
| DependencyWaves.WantedKeysLeastClosed | src/kafka/registry/client.rs:207-234 | The wanted keys are the least set that holds the roots and is closed under references. |
| DependencyWaves.WantedKeysAreSubjectsAndVersions | src/kafka/registry/client.rs:207-234 | The wanted keys hold the subject and version of every root and of every reference of a wanted schema that is found, and each is one of those. |
| DependencyWaves.FetchedIgnoresBound | src/kafka/registry/client.rs:207-234 | Which finite closed set bounds the argument makes no difference to what is fetched. |
| DependencyWaves.ReadProgresses | src/kafka/registry/client.rs:230-234 | Whichever outstanding read completes next, what is fetched, pending and seen stays a part of the wanted closure. |
| DependencyWaves.ReadAsksOnce | src/kafka/registry/client.rs:218-230 | A read completing in any order keeps the keys asked and outstanding distinct. |
| DependencyWaves.DoneIsFetched | src/kafka/registry/client.rs:213-215 | When a wave comes up empty, exactly the wanted keys were seen and all were fetched. |
| DependencyWaves.ListsWantedOnce | src/kafka/registry/client.rs:199-237 | When every read answers, the resolved list holds each wanted schema once and no other. |
| Json.ValueParses | src/app/mcp/untrusted.rs:38-38 | The printed tokens of every value parse back to it and leave what follows. |
| UntrustedText.Enclose | src/app/mcp/untrusted.rs:37-48 | Replacing the closing marker and then each line break in the printed line is a single pass that rewrites strings alone. |
| UntrustedText.CloseReplaced | src/app/mcp/untrusted.rs:39-41 | Replacing every occurrence of the closing marker, from the left and without overlap, touches the inside of strings only. |
| UntrustedText.BreakReplaced | src/app/mcp/untrusted.rs:42-46 | Each pass over a line break leaves the earlier rewriting alone and rewrites exactly that character. |
| UntrustedText.SafeLineDecodes | src/app/mcp/untrusted.rs:37-47 | For every value and every plain marker, the rewritten line decodes to the value it was printed from. |
| UntrustedText.SafePrintOnOneLine | src/app/mcp/untrusted.rs:10-16 | The rewritten line holds no line feed, carriage return, U+0085, U+2028 or U+2029. |
| UntrustedText.SafePrintHidesClose | src/app/mcp/untrusted.rs:39-41 | The closing marker occurs nowhere in the rewritten line, across escapes and tokens included. |
| UntrustedText.FrameHolds | src/app/mcp/untrusted.rs:37-48 | The frame is exactly three lines, the middle one decodes to the value, and the closing marker stands only at its end. |
| UntrustedText.HexFrameHolds | src/app/mcp/untrusted.rs:25-48 | With the marker of sixteen hex digits the server draws, the frame is the line `<data-` marker `>`, one that decodes to the value, and `</data-` marker `>`, which stands only at its end. |
| UntrustedText.MarkerFrames | src/app/mcp/untrusted.rs:25-48 | The frame character by character from the marker drawn: its opening line, a line free of everything that ends one and its closing line, which nothing can follow. |
| UntrustedText.OtherMarkerDoesNotEnd | src/app/mcp/untrusted.rs:25-35 | The closing line of any other marker does not end the frame. |
| UntrustedText.DrawnMarkers | src/app/mcp/untrusted.rs:25-27 | Every 64-bit number drawn makes a marker of sixteen hex digits, and different numbers make different ones. |
| UntrustedText.ClipKeepsLongestPrefix | src/app/mcp/untrusted.rs:65-70 | Clipping keeps the longest prefix within the budget and says whether it cut. |
| RecordCursor.AtCoversFromOffset | src/kafka/scan/cursor.rs:51-61 | A cursor at an offset covers that record and exactly those past it in its order, save newest first at the largest offset. |
| RecordCursor.Parse | src/kafka/scan/cursor.rs:75-112 | The loop over the entries accepts and rejects what the declarative reading of the text does. |
| RecordCursor.Print | src/kafka/scan/cursor.rs:123-140 | The loop writes the entries once each, by ascending partition. |
| RecordCursor.ParsedIsValid | src/kafka/scan/cursor.rs:75-112 | Whatever parses is in range, has no negative offset, and its order, direction and walk agree with its letters. |
| RecordCursor.ParsesExactlyWhenReadable | src/kafka/scan/cursor.rs:75-112 | A text is a cursor if and only if its version, order and direction are known, every entry is readable and not negative, and none names a partition twice; it then holds exactly what its entries read. |
| RecordCursor.EntryReadsExactly | src/kafka/scan/cursor.rs:100-102 | An entry reads as a partition and an offset if and only if it is the text of a 32-bit number, a colon and the text of a 64-bit one. |
| RecordCursor.OuterWhitespaceIsIgnored | src/kafka/scan/cursor.rs:76-77 | Whitespace before and after a text changes nothing about what it parses to. |
| Text.TrimIsTheCore | src/kafka/scan/cursor.rs:76-76 | A text is what it trims to between whitespace, and that neither starts nor ends with any. |
| Text.ParsesExactlyNumerals | src/kafka/scan/cursor.rs:101-102 | A text reads as an integer if and only if it is the digits of one the type holds, after any zeros and a plus, or a minus when it is not above zero. |
| RecordCursor.RoundTripsExactlyWhenValid | src/kafka/scan/cursor.rs:75-140 | A cursor of 32-bit partitions and 64-bit offsets parses back from its print if and only if no offset is negative. |
| RecordCursor.ParsedPrintsCanonically | src/kafka/scan/cursor.rs:75-140 | Every string that parses has a canonical print that parses to the same cursor; two strings mean the same cursor if and only if their prints agree. |
| ScanPooling.ScanPoolInner.Expire | src/kafka/client/pool.rs:83-90 | Cutting the front in place leaves the specified queue and appends what it cut to the evicted. |
| ScanPooling.ScanPoolInner.RemoveNewest | src/kafka/client/pool.rs:55-61 | Removes the last parked entry of a topic, and nothing when there is none. |
| ScanPooling.ScanPoolInner.Take | src/kafka/client/pool.rs:43-53 | Expires, then takes from the back, evicting the closed ones it passes. |
| ScanPooling.ScanPoolInner.Park | src/kafka/client/pool.rs:63-81 | Expires, then parks at the back or evicts at either cap. |
| ScanPooling.ScanPool.Acquire | src/kafka/client/pool.rs:118-134 | Grants a fresh, reusable lease on the consumer taken or built, or retires it when it cannot be assigned. |
| ScanPooling.ScanPool.Release | src/kafka/client/pool.rs:136-142 | A reusable consumer is parked within the caps; any other is retired. |
| ScanPooling.ScanLease.Poison | src/kafka/client/scan.rs:101-106 | A failure makes the lease unusable for reuse, for good. |
| ScanPooling.ScanLease.CloseThenDrop | src/kafka/client/scan.rs:108-117 | Closed and then dropped, a lease hands its consumer over once, as at the close. |
| ScanPooling.ExpireIsExact | src/kafka/client/pool.rs:83-90 | In a queue sorted by park time, cutting the front removes exactly the entries idle past the ttl. |
| ScanPooling.ExpireCutsFront | src/kafka/client/pool.rs:83-90 | What is cut is a prefix, all of it expired, and the first entry left is not. |
| ScanPooling.TakeAccounts | src/kafka/client/pool.rs:43-53 | Taking keeps nothing expired, evicts only closed or expired consumers, loses none, and stays sorted. |
| ScanPooling.TakeIsExact | src/kafka/client/pool.rs:43-61 | Taking returns the most recently parked consumer of the topic that is open and not expired, or nothing when there is none. |
| ScanPooling.ReturnIsExact | src/kafka/client/pool.rs:63-81 | A consumer handed back is parked last exactly when it is reusable and the entries not expired leave room under both caps; nothing leaves the queue but what has expired. |
| ScanPoolRuns.KeptExactly | src/kafka/client/pool.rs:83-90 | On clock values: a parked entry is kept exactly while now is at most its park time plus the ttl, and whatever is dropped was past that. |
| ScanPoolRuns.StepKeepsInv | src/kafka/client/pool.rs:118-142 | Acquire, failure, close, drop and sweep each keep every consumer in one place, the queue sorted and within both caps, and failed consumers out. |
| ScanPoolRuns.RunKeepsInv | src/kafka/client/pool.rs:43-142 | In every state of every run each consumer is held by one live lease, parked once, or retired. |
| ScanPoolRuns.FailedNeverReturns | src/kafka/client/scan.rs:101-117 | Once a consumer failed while a lease or an acquire held it, or was retired, no later state parks it and no later lease holds it. |
| ScanPoolRuns.OutForGoodExactlyWhen | src/kafka/client/pool.rs:43-142 | After any run, a consumer is never parked and never leased again, however the run goes on, if and only if it failed while held or was retired. |
| ScanPoolRuns.HandsBackOnce | src/kafka/client/scan.rs:165-174 | A lease hands its consumer back exactly once, closed, dropped, or closed and then dropped. |
| ScanPoolRuns.IdlesAtMostTwiceTtl | src/kafka/client/pool.rs:101-113 | While sweeps come every ttl, nothing parked has idled past twice the ttl. |
| ScanPoolRuns.StaysParked | src/kafka/client/pool.rs:43-113 | Over any stretch of a run without an acquire of its topic, a parked consumer is still parked as long as it has idled at most the ttl. |
| ScanPoolRuns.FreshIsNeverRetired | src/kafka/client/pool.rs:43-142 | After any run, no step retires a parked consumer idle at most the ttl, unless an acquire of its topic finds it closed or cannot assign it. |
| ScanPoolRuns.AcquireLeasesNewest | src/kafka/client/pool.rs:43-61 | An acquire leases the last parked consumer of its topic that is open and idle at most the ttl, and the one built only when there is none. |
| ScanPoolRuns.FailureKeepsOutExactlyWhen | src/kafka/client/scan.rs:101-117 | After any run, recording a failure on a lease keeps its consumer from ever being parked or leased again if and only if the lease had not released it, or the consumer had failed while held or been retired before. |
| ScanPoolRuns.LateFailureIsLeasedAgain | src/kafka/client/scan.rs:101-117 | A run in which a lease fails after it was closed, and the next acquire leases the same consumer as reusable. |
| SchemaIdLane.Fetch | src/kafka/ingest/schema_ids.rs:42-119 | The nested loops ask, confirm, take over and insert what the specified poll does, failures included. |
| SchemaIdLane.NeverDisagrees | src/kafka/ingest/schema_ids.rs:42-119 | When agreement at the version checked decides, no id in the table disagrees with the registry, however little the session answers, and no unlisted version appears. |
| SchemaIdLane.EqualsFullRead | src/kafka/ingest/schema_ids.rs:42-119 | When agreement at the version checked decides and every read of a version the registry has is answered, the table is the one a full read builds. |
| SchemaIdLane.EqualsFullReadExactlyWhenDecided | src/kafka/ingest/schema_ids.rs:42-119 | When the session answers every request for a version the registry has, the table is the full read's if and only if no subject whose version checked agrees with the registry holds another id that does not. |
| SchemaIdLane.AgreesExactlyWhenDecided | src/kafka/ingest/schema_ids.rs:42-119 | With the checks answered, however few of the reads are, no id in the table disagrees with the registry if and only if the same holds. |
| SchemaIdLane.ReadsExactlyWhatItLacks | src/kafka/ingest/schema_ids.rs:52-98 | With the checks answered, a version is read if and only if it is not the latest and either is not held or the version checked disagrees with the registry. |
| SchemaIdLane.CompleteTableReadsNothing | src/kafka/ingest/schema_ids.rs:42-119 | Over unchanged subjects a complete table is kept with no request, even with the session down. |
| SchemaIdLane.EvolvingIsDecided | src/kafka/ingest/schema_ids.rs:52-76 | When each subject only gains or loses versions, or is made anew with no id it had, one agreeing version decides for all. |
| SchemaIdLane.RunNeverDisagrees | src/kafka/ingest/schema_ids.rs:42-119 | Over every run of polls, failing ones included, between whose successes each subject only gains or loses versions or is made anew with no id it had, the table agrees with the registry the last good poll saw. |
| SchemaIdLane.RunAgreesExactlyWhenDecided | src/kafka/ingest/schema_ids.rs:42-119 | Whatever happens to the registry, over every run of polls whose checks are answered the table agrees with what the last good poll saw if and only if the version checked decided at that poll. |
| SchemaIdLane.AnewStaysWrong | src/kafka/ingest/schema_ids.rs:42-119 | A subject made anew that keeps the id of its latest version and not of another: from then on every run of polls, whatever is answered, keeps the old id. |
| SchemaIdLane.AnsweredRunGoesWrong | src/kafka/ingest/schema_ids.rs:42-119 | Such a run in which every request is answered truthfully: it was not decided, and the table it leaves is wrong. |
| SchemaIdLane.HonestSessionAnswers | src/kafka/registry/client.rs:145-160 | Whatever the registry, there is a session that answers the registry's id for each version asked that it has, and nothing for any other. |
| OffsetIngest.OffsetFetchPartitions | src/kafka/ingest/offsets.rs:260-289 | Names no partitions exactly when none is assigned; otherwise the strictly sorted list of those assigned and those fetched before on a topic still consumed. |
| OffsetIngest.AsksForOneList | src/kafka/ingest/offsets.rs:286-288 | Sorting and deduplicating leaves one possible list, whatever order it was gathered in. |
| OffsetIngest.OffsetLane.Sweep | src/kafka/ingest/offsets.rs:94-153 | A sweep, early return included, leaves the state, the wave and the bus that the full path would. |
| OffsetIngest.OffsetLane.LagUpdates | src/kafka/ingest/offsets.rs:226-257 | Tells of exactly the known lags whose fingerprint is not the one last published, and records them all. |
| OffsetIngest.QuietSweepChangesNothing | src/kafka/ingest/offsets.rs:102-108 | With nothing due and nothing dropped, the full path would keep the table and publish nothing. |
| OffsetIngest.WavePartitionsDue | src/kafka/ingest/offsets.rs:112-153 | Refreshed and failed partition the due groups by whether their fetch was answered, dropped is the vanished ones, and the table holds listed groups only. |
| OffsetRuns.TableHoldsLatest | src/kafka/ingest/offsets.rs:112-138 | After every run the table maps a listed group to its latest successful fetch since it appeared, and holds no other. |
| OffsetRuns.AttemptsExactlyTheDue | src/kafka/ingest/offsets.rs:155-193 | Under a monotone clock a sweep attempts a group exactly when it has not since the group appeared, it is hot and a refresh was asked for, or its last attempt is `fast` ago when hot and `slow` ago when cold. |
| OffsetRuns.AttemptsKeepPace | src/kafka/ingest/offsets.rs:155-193 | Successive attempts on a group that stays listed are at least `slow` apart when cold and `fast` when hot without a refresh. |
| OffsetRuns.NoneIsOverdue | src/kafka/ingest/offsets.rs:155-193 | After a sweep every listed group was attempted by it or less than its pace before it, and every hot one by it under a refresh. |
| OffsetRuns.UpdatesTellTheTable | src/kafka/ingest/offsets.rs:226-257 | What is published of a group is its total, completeness and offsets as projected from what the table then holds, which the session just answered. |
| OffsetRuns.PublishesExactlyChanges | src/kafka/ingest/offsets.rs:226-257 | A sweep publishes a group's known lag just when it differs from the last one known since the group appeared, if and only if those two do not collide; what it publishes is always the lag. |
| OffsetRuns.SubscriberHoldsKnownMark | src/kafka/ingest/offsets.rs:226-257 | Whatever the fingerprint, a subscriber that keeps the last update holds one with the fingerprint of the latest known lag. |
| OffsetRuns.SubscriberHoldsKnownLag | src/kafka/ingest/offsets.rs:226-257 | It holds the lag of the latest refresh whose total was known if and only if that lag does not collide with the update held when it came up. |
| OffsetRuns.ConsecutiveUpdatesDiffer | src/kafka/ingest/offsets.rs:246-249 | Whatever the fingerprint, two updates in a row for a group that stays listed differ. |
| Session.OffsetLookup.Insert | src/kafka/session.rs:198-203 | The partition answered last stands, every other answer and the failure are untouched. |
| Session.OffsetLookup.Fail | src/kafka/session.rs:205-207 | The first failure stands and hides every offset from a caller that needs them all. |
| Session.MergeWatermarks | src/kafka/session.rs:255-277 | The loops build the specified table of marks. |
| Session.MergedAt | src/kafka/session.rs:255-277 | A partition has a mark exactly when its high was answered and its low is not above it; an unanswered low reads as the high. |
| Session.MergedIsOrdered | src/kafka/session.rs:255-277 | Whatever the lookups answered, every merged mark has low at most high and no topic is left empty. |
| Session.CompleteExactlyWhenUnfailed | src/kafka/session.rs:244-253 | The complete read succeeds exactly when no part of either lookup failed, and is then the lenient read; otherwise its error is one of theirs. |
| WatermarkReads.WantedPartitions | src/kafka/ingest/watermarks.rs:45-73 | The loops gather the specified request. |
| WatermarkReads.AsksExactlyTheWanted | src/kafka/ingest/watermarks.rs:45-73 | That request asks for every partition of a known topic and every one some group committed on, and for no other. |
| WatermarkReads.ReadHigh | src/kafka/ingest/watermarks.rs:90-122 | The loops take over usable cached lows, look up the rest, and merge as specified. |
| WatermarkReads.AsksLowsExactlyWhereNoneIsHeld | src/kafka/ingest/watermarks.rs:96-115 | The low marks looked up are exactly those of partitions whose high was answered and for which no low mark at or below it is held. |
| WatermarkReads.HighReadAt | src/kafka/ingest/watermarks.rs:90-122 | A partition's mark is its answered high with the held low where that is not above it, or else with the start looked up; inverted ones are left out. |
| WatermarkReads.HighReadExactlyWhenCurrent | src/kafka/ingest/watermarks.rs:80-122 | When lookups answer all they are asked, the high-only read builds the full read's table if and only if every low it takes over still starts its log. |
| WatermarkReads.MovedStartIsMissed | src/kafka/ingest/watermarks.rs:90-122 | A log cut since its low mark was read shows the old start in the high-only read and the new one in the full read. |
| WatermarkReads.ReadsAreOrdered | src/kafka/ingest/watermarks.rs:80-122 | Neither read leaves an inverted range or an empty topic. |
| Rates.SumProduced | src/kafka/ingest/watermarks.rs:219-230 | Adding up partitions in any order gives the sum of their gains, none negative. |
| Rates.ProducedIsGrowth | src/kafka/ingest/watermarks.rs:219-230 | Where partitions stay and no high falls, what was produced is how far the highs rose together. |
| Rates.ProducedIsTheRise | src/kafka/ingest/watermarks.rs:219-230 | Whatever came, went or fell, what was produced is how far the partitions that had a mark and rose did rise. |
| Rates.RatesBetween | src/kafka/ingest/watermarks.rs:205-241 | One rate a topic of the new table, sorted by topic. |
| Rates.RoundsWithinHalfAThousandth | src/kafka/ingest/watermarks.rs:243-245 | A rounded rate is a whole number of thousandths within half a thousandth, the upper one at the middle. |
| Rates.RateStore.KeepChanged | src/kafka/store/rates.rs:31-34 | Stores every rate and keeps, in order, those that differ. |
| Rates.KeptAreChanged | src/kafka/store/rates.rs:31-34 | Over a list sorted by topic those kept are exactly the rates that changed, still sorted. |
| Rates.SubscriberKnowsEveryRate | src/kafka/store/rates.rs:31-44 | A subscriber told only of changes knows the rate of every topic still stored, through any run of ticks and removals. |
| Watermarking.WatermarkLane.Fetch | src/kafka/ingest/watermarks.rs:148-169 | Reads the lows exactly when there is no table, a refresh was asked for or they were not read less than their interval ago, and takes the cheaper read otherwise; after a fetch that succeeds they were last read less than their interval ago, or just now. |
| Watermarking.WatermarkLane.Poll | src/kafka/ingest/runner.rs:101-136 | A whole poll reads what the topology and the groups' commits name; it commits exactly when the marks changed, nothing was committed or the heartbeat is due, then announces the rates that changed, and a failed poll only records its failure. |
| Watermarking.TableIsLastRead | src/kafka/ingest/runner.rs:111-126 | Though polls that change nothing commit nothing, the table held is always the last one read. |
| Watermarking.CommitsExactlyChangesAndHeartbeats | src/kafka/ingest/watermarks.rs:171-178 | Over every run a poll commits exactly when it read marks other than the last ones read or the last commit is a heartbeat old; one that reads the same within the heartbeat commits nothing. |
| Watermarking.CommitMeasuresGrowth | src/kafka/ingest/watermarks.rs:180-241 | One commit's rate over its gap is exactly how far the topic's highs rose. |
| Watermarking.NoGapMeansNoRate | src/kafka/ingest/watermarks.rs:186-232 | A commit with no table before it, or none committed a nonzero gap within the sample limit ago, publishes a rate of nothing for every topic. |
| Watermarking.RatesAndLossesAreGrowth | src/kafka/ingest/watermarks.rs:171-241 | Over any run with fixed partitions and highs that do not fall, rate times gap and what grew at commits with no gap to measure over sum to the topic's last total high minus its first. |
| Watermarking.RatesAccountExactlyWhenNothingLost | src/kafka/ingest/watermarks.rs:171-241 | Rate times gap alone sums to that growth if and only if the topic had not grown at any commit with no gap to measure over. |
| Watermarking.RatesAccountForGrowth | src/kafka/ingest/watermarks.rs:171-241 | So it does when every commit but the first comes a nonzero gap within the sample limit after the one before. |
| Watermarking.PacedIsSampled | src/kafka/ingest/watermarks.rs:171-193 | Every commit does come within the limit when a heartbeat and the time between polls fit in it together and polls follow one another. |
| Watermarking.LateGrowthIsLost | src/kafka/ingest/watermarks.rs:186-195 | Under the default tuning growth first seen sixteen seconds after the last commit enters no rate. |
| Watermarking.PublishedRatesStayNear | src/kafka/ingest/watermarks.rs:205-245 | Over any run of sampled commits the rates as rounded are off by at most half a thousandth a second. |
| Access.Compile | src/app/auth/access.rs:248-272 | The nested loops build an index that finds, for each group, exactly the bindings that name it. |
| Access.Resolve | src/app/auth/access.rs:274-288 | Looking groups up in the index gives the grants of the bindings that name one of them, each once and in file order, or none. |
| Access.DirectIsMatched | src/app/auth/access.rs:275-286 | Walking the matched indexes in ascending order is the direct evaluation of the role file. |
| Access.FromRoles | src/app/auth/access.rs:232-237 | No roles make an open policy; a role file makes one bound to an index that finds exactly its bindings. |
| Access.Admit | src/app/auth/access.rs:231-244 | An open policy admits everyone to everything; a bound one admits as the role file says. |
| Access.AccessFollowsTheRoleFile | src/app/auth/access.rs:27-68 | On the role file alone: a cluster is known exactly when some binding lists one of the groups and names no clusters or that one, and a privilege is held on it exactly when the role of such a binding has it; without a role file all are held everywhere. |
| Access.PrivilegesAreTheUnion | src/app/auth/access.rs:58-68 | A cluster's privileges are the union over exactly the bindings that name a group and cover it, and it is unknown exactly when none does. |
| Access.GroupOrderIsIrrelevant | src/app/auth/access.rs:274-281 | However groups repeat or are ordered, the grants are the same. |
| Access.MoreGroupsKeepPrivileges | src/app/auth/access.rs:58-68 | Adding groups never removes a privilege or hides a cluster. |
| TopicPatterns.OverlapsExactlyWhenShared | src/config/obfuscation.rs:77-88 | Two patterns overlap if and only if some topic name matches both. |
| TopicPatterns.Disjoint | src/config/obfuscation.rs:111-123 | A rule list is accepted if and only if no topic name matches two of its patterns; otherwise the first conflict is named. |
| TopicPatterns.ParsesExactlyWhenStarEnds | src/config/obfuscation.rs:90-100 | A text is a pattern if and only if no star stands before its last character. |
| TopicPatterns.ShowUndoesParse | src/config/obfuscation.rs:90-109 | Every accepted text prints back as it was. |
| TopicPatterns.RoundTripsExactlyWhenPlain | src/config/obfuscation.rs:90-109 | A pattern reads back from its print if and only if its name or prefix holds no star. |
| TopicPatterns.LookupFindsTheOnlyRule | src/kafka/scan/obfuscate.rs:83-92 | Over an accepted list the rule looked up for a topic is the only one with a pattern that matches it, wherever it stands. |
| ReplyFit.Reply.Cap | src/app/mcp/tools/groups.rs:251-261 | Capping nested lists rebuilds each from what is kept whole, so an earlier cap leaves no trace. |
| ReplyFit.Reply.Render | src/app/mcp/reply.rs:177-187 | What is shown, capped lists and plain ones, depends on the row count alone, whatever was capped or shown before. |
| ReplyFit.Fits | src/app/mcp/reply.rs:233-254 | However a reply is cut into pieces, it fits exactly when its bytes are within the budget. |
| ReplyFit.Search | src/app/mcp/reply.rs:210-231 | Ends within two renders more than the base-two logarithm of the row count, rounded up, on the row count the specified bisection settles on. |
| ReplyFit.CeilLog2IsLeast | src/app/mcp/reply.rs:218-229 | The logarithm of that bound is the least exponent whose power of two is not below the row count. |
| ReplyFit.SettlesOnAnEdge | src/app/mcp/reply.rs:214-230 | The whole reply if it fits; otherwise a count that fits where one more does not, or no rows. |
| ReplyFit.SettlesOnTheLargest | src/app/mcp/reply.rs:210-231 | Where fewer rows take no more room and each row takes a byte, no larger count fits, and capping the count by the byte budget loses nothing. |
| ReplyFit.SettlesOnTheLargestExactlyWhen | src/app/mcp/reply.rs:210-231 | Where each row takes a byte, the search settles on the largest count that fits if and only if that count is the cap or all smaller counts that halving towards it looks at fit too. |
| ReplyFit.SearchMissesALargerCount | src/app/mcp/reply.rs:177-231 | A reply of two lists, with the server's note on what is left out of each, of which the search shows one row though three fit. |
| OffsetReset.PlaceIsNearestToTarget | src/kafka/reset.rs:19-28 | Placing fails exactly for a shift without a commit, and otherwise lands on the offset of the log nearest the target in unbounded integers, so saturation loses nothing. |
| OffsetReset.PlanReset | src/kafka/reset.rs:58-125 | Succeeds only with every wanted move, sorted and as often as wanted, each of which lands as in MovesLand; when a read is not answered it fails with the error of the first such read, and else it names a partition that cannot be moved. |
| OffsetReset.MovesLand | src/kafka/reset.rs:19-28 | On the session's answers alone: a move to the earliest goes to the low mark, to the latest to the high mark, and any other to the offset of the log nearest the offset asked for, the last commit shifted, or the offset answered at the time, where none is the high mark; it starts from the last commit listed. |
| OffsetReset.WantsExactly | src/kafka/reset.rs:66-78 | Wanted are exactly the partitions asked for, or else those some commit listed is on. |
| OffsetReset.MovableExactlyWhen | src/kafka/reset.rs:92-112 | A partition is refused as unknown exactly without marks, as uncommitted exactly for a shift without a commit; a move stays in range and keeps its origin and end. |
| OffsetReset.PlanListsEachOnce | src/kafka/reset.rs:89-124 | Over distinct partitions a plan lists each wanted one exactly once, strictly sorted by topic and partition. |
| TopicOrder.BelowExactlyWhen | src/kafka/reset.rs:121-123 | One partition sorts before another exactly when its topic is a proper prefix or has the lesser character where they first differ, or the topic is the same and its number is less. |
| OffsetReset.PlanIsUnique | src/kafka/reset.rs:89-124 | Over distinct partitions the order in which the tables are walked never shows in a plan. |
| GroupFindings.MemberLags | src/app/mcp/findings.rs:150-166 | A member's lag is the sum over the positions it holds, unknown when one of them is. |
| GroupFindings.HeldLagIsSum | src/app/mcp/findings.rs:150-158 | That lag is unknown exactly when a position the member holds has none, and else the sum over the positions it holds. |
| GroupFindings.LagOnOne | src/app/mcp/findings.rs:127-147 | Names a member exactly when the lag is worth naming and some member holds four fifths of it, and then the last of those with the most. |
| GroupFindings.OnlyOneHoldsMost | src/app/mcp/findings.rs:127-147 | When positions add up to the total, no two members can both hold that share. |
| GroupFindings.All | src/app/mcp/findings.rs:70-125 | No members, rebalancing and idle groups are told apart; a stable group yields crowding, lag and unassigned partitions, in that order and by topic. |
| GroupFindings.NamesExactlyTheUnassigned | src/app/mcp/findings.rs:82-117 | A partition is reported exactly when its topic is consumed and known, has it, and no member holds it. |
| GroupFindings.ReportsExactlyTheUnassigned | src/app/mcp/findings.rs:82-125 | The same on the members and the findings as a whole: some member is assigned the topic, the cluster knows the partition, and no member is assigned it. |
| GroupFindings.FindsExactlyTheCrowded | src/app/mcp/findings.rs:90-121 | Crowding is found exactly when topics are assigned, all are known and the members outnumber their partitions all told; it tells both numbers. |
| GroupFindings.MissingKeepsOrder | src/app/mcp/findings.rs:99-104 | The partitions reported stand in the order the topic lists them. |

## Left out

- Network, registry and identity calls: each is a function from what is asked to an answer or an error.
- DependencyWaves.Dependencies: terminates given a finite closed set of keys; over a registry whose references never close the server's own loop would not end either, and which of several failing reads is reported is left open.
- Concurrency inside one wave, sweep or lookup: completion order is a nondeterministic choice, or the answers are functions of the request; how many run at once is not modelled.
- UntrustedText.FrameHolds: assumes a marker of plain characters, as the hex marker is; numbers are kept as their literal text.
- Scan pool: acquire and release are each one step, the mutex and the timer task are not modelled, and whether a consumer is closed, can be built or can be assigned are parameters.
- SchemaIdLane.NeverDisagrees: the registry is taken not to change while one poll runs; requests are sets, so repeated versions of a subject are asked for once.
- OffsetIngest.OffsetLane.Sweep: the version number of the stored table is not modelled, so the early return is the same up to that number.
- Lag projection (`src/kafka/store/projections.rs`) is a parameter, and so is the fingerprint; nothing is assumed of its collisions.
- Session.ReadCompleteWatermarks: when both lookups fail outright the low one's error is reported, where the server reports the first to fail.
- WatermarkReads.WantedPartitions: a request is a set of partitions for each topic, so the order within it is not modelled.
- Rates: real numbers stand for floating point; only the rounding to a thousandth is bounded.
- Logging, the recorded duration of a poll and the interning of topic names (here the identity).
- The wording of a reply's truncation note, part of the serializer, a function of the row count and the rows shown; how an item of a nested list is capped is a function of the item and the row count, and the row count a search starts from is a parameter.
- The group and cluster names carried by reset errors.
- GroupFindings.MemberLags: sums are unbounded integers, where the server uses 64-bit ones.
- Routes, middleware, server-sent events, sessions, codecs, cookies, one-to-one conversions, and lanes that only fetch and compare: input and output, or easy members.
