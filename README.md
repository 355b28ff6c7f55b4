# chronologicon-engine, modelled in Dafny

chronologicon-engine ingests files of historical events, one pipe-delimited
record per line. Each event has an id, a name, a start, an end, an optional
parent and a description. It answers questions about the stored events:
- which events overlap;
- where the largest stretch of uncovered time lies;
- which chain of parent/child links joins two events at the least total duration;
- what the tree below an event looks like.

This project models the logic behind those answers and proves properties of it:

- **Record parser** (`LineParser`, with `Text` and `Timing`): a line
  becomes an event, a diagnostic, or nothing for a blank line. The
  validation is a fixed chain of checks.
- **Batch ingestor** (`Ingestion`): a loop over the lines of a file. It
  counts lines and errors, collects events into batches of 500, inserts
  each full batch, and falls back to one insert per row when a batch
  insert fails. It publishes progress to the job registry and ends the
  job as COMPLETED or FAILED.
- **Job registry** (`JobStore`): a class over a map from job id to job
  record, with create, get and a merge-update.
- **Query semantics** (`EventModel`, `EventClosure`): the store's SQL as
  functions over the table as a sequence of rows. This covers the ON
  CONFLICT insert, the overlap self-join, the range query, the paging and
  sort whitelist of `search`, and the recursive subtree and ancestor
  unions.
- **Search parameters** (`EventService`): the defaults and the limit clamp.
- **Analytics** (`InsightOverlaps`, `InsightGaps`, `Heap`,
  `InfluenceGraph`, `Influence`):
  - the mapping of overlap rows to results;
  - the sweep-line gap finder;
  - the binary min-heap;
  - the bidirectional parent/child graph;
  - Dijkstra's search with node weights, and the walk back along `prev`.
- **Tree builder** (`Timeline`): `buildTree`'s two loops over a map of nodes.

Timestamps are integer milliseconds. Durations are whole minutes,
`RoundMin(ms) = (ms + 30000) / 60000`, which is JavaScript's
`Math.round(ms / 60000)`. JavaScript's `Date` parser is a function
parameter `dates: string -> Option<int>`, where `None` stands for an
invalid date. The database insert is a parameter that answers success or
an error message for each call. Clock readings and the UUID of a new job
are parameters too.

Imperative code is modelled as methods proved against specification
functions:
- `FlushBatch`, `ReadLines` and `ProcessFile` are proved against `Flush`,
  `Run` and `FinalJob`;
- `Sweep` is proved against `ScanAll`;
- `IndexRows`, `WireLinks`, `IndexNodes` and `WireChildren` are proved
  against `EventMapOf`, `LinksOf` and `Tree`;
- `Expand`, `Search` and `Reconstruct` are proved against the search
  invariant `Inv` and the walk predicates.

The job registry and the heap are classes. The registry's methods state
their whole new state. The heap's methods state the queued items as a
multiset and the heap order, not the arrangement of the array.

## Model

| member | source | states |
|---|---|---|
| Timing.RoundMin | src/utils/lineParser.js:99 | the rounded minutes are the integer within half a minute of the span (`Math.round`) |
| Timing.RoundMinUnique | src/utils/lineParser.js:99 | no other integer is within half a minute, so the rounding is determined |
| Timing.RoundMinNonNegative | src/utils/lineParser.js:99 | a span that is not negative has a duration that is not negative |
| Timing.RoundMinMonotone | src/services/insightService.js:28 | rounding never reverses the order of two spans |
| Timing.RoundMinPositive | src/services/insightService.js:112-117 | a rounded duration is positive exactly when the span is at least 30000 ms |
| Text.TrimStart | src/utils/lineParser.js:39-41 | the result is a suffix starting with a non-space, and only whitespace was removed |
| Text.TrimEnd | src/utils/lineParser.js:39-41 | the result is a prefix ending with a non-space, and only whitespace was removed |
| Text.TrimEmptyIff | src/utils/lineParser.js:25 | a line trims to "" exactly when every character is whitespace |
| Text.TrimmedIff | src/utils/lineParser.js:39-41 | a trimmed field has no whitespace at either end, and those are exactly the strings `trim` keeps |
| Text.TrimIdempotent | src/utils/lineParser.js:39-41 | trimming twice is trimming once |
| Text.Split | src/utils/lineParser.js:29 | `split` gives one more piece than there are separators, no piece holds one, and joining the pieces gives the line back |
| Text.SplitJoin | src/utils/lineParser.js:29 | splitting inverts joining for pieces without the separator |
| Text.ToUpperAscii | src/utils/lineParser.js:88 | the same length, with each ASCII lower-case letter raised and every other character kept |
| Text.Prefix | src/utils/lineParser.js:35 | `substring(0, n)` is a prefix of at most n characters, and is the whole string when it is short enough |
| Text.NatToString | src/utils/lineParser.js:35 | a number renders as decimal digits with no leading zero |
| Text.NatToStringRoundTrip | src/utils/lineParser.js:35 | reading the rendered digits back gives the number |
| Text.LexLessIrreflexive | src/models/eventModel.js:136 | no id is less than itself |
| Text.LexLessAsymmetric | src/models/eventModel.js:136 | two ids are never each less than the other |
| Text.LexLessTotal | src/models/eventModel.js:136 | two different ids are ordered one way or the other |
| Sorting.InsertBy | src/models/eventModel.js:157 | inserting into a sorted list keeps it sorted and adds exactly that element |
| Sorting.SortBy | src/models/eventModel.js:157 | the result is sorted by the key and is a permutation of the rows |
| Events.EventMapOf | src/services/insightService.js:203-208 | the map from id to row has a key for every id of the rows, and each entry is a row with that id |
| Events.EventMapLastWins | src/services/insightService.js:204 | an id maps to the last row carrying it |
| LineParser.UuidIsHexGroups | src/utils/lineParser.js:6-10 | the id check holds exactly for hex groups of 8, 4, 4, 4 and 12 digits joined by hyphens |
| LineParser.UuidIgnoresCase | src/utils/lineParser.js:6 | a string passes the id check exactly when its upper-cased form does |
| LineParser.NullTextIsNull | src/utils/lineParser.js:88 | the text `NULL` means no parent |
| LineParser.Fields | src/utils/lineParser.js:39-41 | there is one trimmed field per piece of the split |
| LineParser.ParseFields | src/utils/lineParser.js:43-113 | an accepted record is well formed: a UUID, a non-empty name, dates the engine accepts with end not before start, duration `RoundMin(end - start)` of at least 0, the parent and description read from their fields, empty metadata; a rejection carries the line number |
| LineParser.ParseLine | src/utils/lineParser.js:23-114 | a line is skipped (no event, no error) exactly when it is blank; otherwise exactly one of event and diagnostic is given, and an event satisfies `WellFormed` |
| LineParser.FieldCheckOrder | src/utils/lineParser.js:43-96 | on six fields, the record is accepted exactly when checks 1 to 6 pass; otherwise the diagnostic names the first check that fails |
| LineParser.ParseCheckOrder | src/utils/lineParser.js:29-96 | on a non-blank line, the record is accepted exactly when all seven checks pass, field count first; otherwise the diagnostic names the first failing check |
| LineParser.MalformedLine | src/utils/lineParser.js:29-37 | a line with other than five separators is rejected as malformed, with n + 1 fields for n separators and the first 120 characters |
| LineParser.MalformedMessageText | src/utils/lineParser.js:35 | the malformed-entry diagnostic contains "Malformed entry (expected 6 fields, got N)" |
| LineParser.ParentField | src/utils/lineParser.js:86-96 | empty or `NULL` in any case gives no parent; a UUID is the parent; anything else is rejected as an invalid parent |
| LineParser.ParseFieldsAccept | src/utils/lineParser.js:98-113 | when every check passes, the event is exactly the fields, the two dates and the rounded duration |
| LineParser.UuidNotWhitespace | src/utils/lineParser.js:6 | no character of a UUID is whitespace |
| LineParser.ParentTextRead | src/utils/lineParser.js:87-96 | the written parent field reads back as the parent it came from |
| LineParser.FieldsOfFormat | src/utils/lineParser.js:29-41 | a written record splits back into its six fields, untouched by `trim` |
| LineParser.ParseFormat | src/utils/lineParser.js:23-114 | round trip: writing a printable, well-formed event as a line and parsing it gives the event back, when the date engine reads what `toISOString` writes |
| EventModel.StoredIgnoresDuration | src/models/eventModel.js:8-18 | the stored row's duration comes from its two timestamps, whatever duration the event carried |
| EventModel.BatchInsert | src/models/eventModel.js:8-27 | existing rows are kept as a prefix, the ids become the old ids plus the batch's, and unique ids stay unique |
| EventModel.InsertIfAbsentFacts | src/models/eventModel.js:20-24 | a row with a taken id changes nothing; a row with a new id adds its stored form at the end |
| EventModel.BatchInsertNewRows | src/models/eventModel.js:8-27 | every added row is the stored form of a batch row whose id was not in the table |
| EventModel.BatchInsertKnown | src/models/eventModel.js:20-24 | a batch whose ids are all present changes nothing |
| EventModel.BatchInsertIdempotent | src/models/eventModel.js:20-24 | inserting a batch twice is inserting it once |
| EventModel.BatchInsertFirstWins | src/models/eventModel.js:20-24 | the first batch row with a new id is the one stored |
| EventModel.FindOverlapping | src/models/eventModel.js:124-148 | the rows are in descending overlap order and are a permutation of the join's rows |
| EventModel.PairsWithMember | src/models/eventModel.js:135-142 | the joined rows for one left event are exactly its pairs that meet the join condition |
| EventModel.JoinRowsMember | src/models/eventModel.js:135-142 | the join's rows are exactly the pairs of rows that meet the join condition |
| EventModel.OverlapMember | src/models/eventModel.js:135-142 | a pair is returned exactly when the ids are ordered, the intervals intersect strictly, and both lie within [from, to] |
| EventModel.OverlapOneOrientation | src/models/eventModel.js:136 | no event is paired with itself, and no pair is also returned the other way round |
| EventModel.OverlapAtMostOnce | src/models/eventModel.js:135-136 | on a table with unique ids, each result row occurs at most once |
| EventModel.OverlapNonNegative | src/models/eventModel.js:132-134 | the overlap is never negative, and it is positive when both events have positive length |
| EventModel.OverlapOfInstant | src/models/eventModel.js:137-138 | a zero-length event strictly inside another is returned with overlap 0 |
| EventModel.Within | src/models/eventModel.js:155-156 | an event is kept exactly when it is in the table and inside [from, to] |
| EventModel.EventsInRange | src/models/eventModel.js:153-159 | exactly the events with start ≥ from and end ≤ to, each as often as in the table, in ascending start order |
| EventModel.Plan | src/models/eventModel.js:83-89 | `offset + limit == page * limit`; the sort column is the requested one when whitelisted and `start_date` otherwise; the order is descending exactly for `desc` |
| EventModel.PlanPagesTile | src/models/eventModel.js:84 | page n + 1 starts where page n ends, and the offset is never negative for a positive page and limit |
| EventClosure.NextMember | src/models/eventModel.js:47-49 | one join step from a row gives exactly the table rows it links to in that direction |
| EventClosure.StepMember | src/models/eventModel.js:47-49 | one round of the recursion gives exactly the table rows linked to some frontier row |
| EventClosure.SeedsMember | src/models/eventModel.js:43 | the anchor is exactly the rows with the requested id |
| EventClosure.ClosureMember | src/models/eventModel.js:42-51 | a row is in the union exactly when some round produced it |
| EventClosure.LevelDown | src/models/eventModel.js:42-51 | round n of the downward recursion is exactly the rows n parent links below the root |
| EventClosure.LevelUp | src/models/eventModel.js:64-73 | round n of the upward recursion is exactly the rows n parent links above the event |
| EventClosure.SubtreeMember | src/models/eventModel.js:39-56 | the subtree holds exactly the rows descending from the root within `\|table\|` rounds |
| EventClosure.AncestorsMember | src/models/eventModel.js:61-78 | the ancestors are exactly the rows above the event within `\|table\|` rounds |
| EventClosure.SubtreeOfAbsent | src/models/eventModel.js:39-78 | an id that is not in the table gives no rows in either direction |
| EventClosure.ClosureHasSeed | src/models/eventModel.js:39-78 | a row is in its own subtree and among its own ancestors |
| EventClosure.ChainBound | src/models/eventModel.js:39-78 | on an acyclic table every parent chain has at most `\|table\|` rows |
| EventClosure.SubtreeComplete | src/models/eventModel.js:39-56 | on an acyclic table, the subtree is the root and all its descendants |
| EventClosure.AncestorsComplete | src/models/eventModel.js:61-78 | on an acyclic table, the ancestors are the event and its whole parent chain |
| EventClosure.AncestorSubtreeDual | src/models/eventModel.js:39-78 | with unique ids, x is an ancestor of y exactly when y is in the subtree of x |
| EventService.OrNumber | src/services/eventService.js:7-8 | `NaN` and 0 give the default; any other number is kept |
| EventService.OrText | src/services/eventService.js:15-16 | a missing or empty text gives the default; any other text is kept |
| EventService.ClampLimit | src/services/eventService.js:9 | the limit lies in [1, 100]; it is unchanged inside that range and clamped to the nearer bound outside it |
| EventService.Normalise | src/services/eventService.js:7-19 | the limit lies in [1, 100] and the page is never 0; a missing or zero page gives 1 and any other page is kept; a missing or zero limit gives 10, a limit in [1, 100] is kept, one below 1 becomes 1 and one above 100 becomes 100; a missing or empty `sortBy`/`sortOrder` gives `start_date`/`asc` and any other text is kept; the filters pass through unchanged |
| EventService.SearchEvents | src/services/eventService.js:6-27 | the page and limit returned are those sent to the store; the count and rows are the store's, unchanged |
| EventService.NormaliseIdempotent | src/services/eventService.js:7-19 | normalising a normalised request changes nothing |
| EventService.NormalisedPlan | src/services/eventService.js:6-19 | the store's plan for a normalised request pages 1 to 100 rows, at a non-negative offset for a positive page, by a whitelisted column |
| JobStore.ApplyFields | src/utils/jobStore.js:32 | for each of the seven keys (status, the three counters, errors, start and end time), a supplied key takes the supplied value and an absent key keeps the old one; the id never changes |
| JobStore.ApplyThen | src/utils/jobStore.js:32 | two updates in a row are one update in which the later value of each key wins |
| JobStore.ApplyIdempotent | src/utils/jobStore.js:32 | applying an update twice is applying it once, and an empty update changes nothing |
| JobStore.ApplyAll | src/utils/jobStore.js:28-33 | successive merges keep the id, keep every key no update supplies, and leave each counter and the log at the value the last update supplies |
| JobStore.ApplyAllSnoc | src/utils/jobStore.js:28-33 | one more `updateJob` call merges one more update into the record |
| JobStore.JobRegistry.constructor | src/utils/jobStore.js:7 | the registry starts empty |
| JobStore.JobRegistry.CreateJob | src/utils/jobStore.js:9-23 | the new job is `ingest-job-` plus the UUID, PENDING, with zero counts, no errors and no times; it is stored under its id, nothing else changes, and `GetJob` returns it |
| JobStore.JobRegistry.GetJob | src/utils/jobStore.js:25-27 | an unknown id gives null; a known id gives its stored record |
| JobStore.JobRegistry.UpdateJob | src/utils/jobStore.js:29-34 | an unknown id gives null and changes nothing; a known id has the update merged into its record, which is returned, and no other job changes |
| Ingestion.Cap | src/services/ingestionService.js:80 | `slice(0, 100)` keeps the first min(n, 100) errors |
| Ingestion.Outcomes | src/services/ingestionService.js:31-34 | each line is parsed with its 1-based number |
| Ingestion.ValidOfMember | src/services/ingestionService.js:43-53 | the valid events are exactly the parsed lines, each stamped with the file name and its line number |
| Ingestion.RejectedOfBound | src/services/ingestionService.js:36-41 | there are never more rejected lines than lines, and as many only when every line is rejected |
| Ingestion.FallbackAccounts | src/services/ingestionService.js:62-71 | each row of a failed batch is tried once: inserted, or counted and logged exactly once |
| Ingestion.FlushAccounts | src/services/ingestionService.js:56-72 | a flush of k rows adds k to processed plus insert errors, adding all k to processed when the batch insert succeeds |
| Ingestion.StepBlank | src/services/ingestionService.js:43-44 | a blank line advances the line counter and changes nothing else |
| Ingestion.StepRejected | src/services/ingestionService.js:36-41 | a rejected line adds one to the error count and exactly its diagnostic to the log, touching neither batch nor table |
| Ingestion.AccountedNotParsed | src/services/ingestionService.js:36-44 | a rejected or blank line keeps the loop invariant |
| Ingestion.AccountedParsed | src/services/ingestionService.js:53-73 | a parsed line joins the batch, a full batch is flushed and published, and the loop invariant holds |
| Ingestion.RunAccounted | src/services/ingestionService.js:31-83 | after every line: the counter equals the lines read; the batch holds fewer than 500 events; each valid event so far is in exactly one flushed batch or the pending batch; every error is counted and logged once; one update is published per full batch |
| Ingestion.ErrorsGrow | src/services/ingestionService.js:31-83 | the log after the first k lines is a prefix of the log after all of them: entries are only appended |
| Ingestion.PublishedAfterFlush | src/services/ingestionService.js:76-81 | every progress update comes from a valid line k + 1 that filled a batch; it equals the update built from the processed and error counters and the log in the state right after that flush, with `totalLines` k + 1 |
| Ingestion.StepPublished | src/services/ingestionService.js:76-81 | one line keeps every update published before it and adds at most one |
| Ingestion.StepPublishedNew | src/services/ingestionService.js:76-81 | a line adds an update only when it is valid and fills a batch; the batch is then empty and the update carries the counters after the flush |
| Ingestion.PublishedCapped | src/services/ingestionService.js:76-81 | every progress update leaves the status alone and carries `totalLines` k + 1 and exactly the first min(n, 100) entries of the log after the flush at line k + 1 (`errors.slice(0, 100)`), which are a prefix of the whole run's log |
| Ingestion.FinishAccounted | src/services/ingestionService.js:85-102 | after a full read, every valid event was in exactly one flush, the partial batch included, and the error count is parse errors plus insert errors |
| Ingestion.FinalJobState | src/services/ingestionService.js:104-124 | COMPLETED after a full read, with the first min(n, 100) entries of the final log (`errors.slice(0, 100)`); FAILED after a read error, with the counts so far and the whole log plus "Fatal error: ..."; `totalLines` counts every line read |
| Ingestion.FinalRegistry | src/services/ingestionService.js:104-123 | the registry after the last update is the one the start and final updates give |
| Ingestion.FlushBatch | src/services/ingestionService.js:56-73 | the counters, log and table after one flush, with its per-row fallback loop, are those `Flush` gives; every row of the batch is either processed or counted as an error, with one log line per error; a batch insert that succeeds processes all rows and logs nothing |
| Ingestion.InsertEach | src/services/ingestionService.js:63-71 | the per-row fallback loop after a failed batch insert leaves the counters, log and table `Fallback` gives: each row inserted on its own, or counted and logged with its prefix |
| Ingestion.ReadLine | src/services/ingestionService.js:31-82 | one pass of the loop body moves the line counter by one, leaves the state `Step` gives, and leaves the job's record with every update published so far merged in, in order |
| Ingestion.ReadLines | src/services/ingestionService.js:24-83 | the state after the `for await` loop is `Run`'s; only the job being ingested changes in the registry, and its record is the record before the loop with every published progress update (`Run(...).published`) merged in, in order |
| Ingestion.ProcessFile | src/services/ingestionService.js:15-125 | the job record ends as `FinalJob` and the table as `FinalTable`; an unknown job id leaves the registry unchanged |
| InsightOverlaps.ToResults | src/services/insightService.js:13-29 | one result per row, in row order |
| InsightOverlaps.ResultsDescending | src/services/insightService.js:13-29 | the results are in descending order of rounded overlap minutes |
| InsightOverlaps.ResultMeaning | src/services/insightService.js:13-29 | each result shows two table events that form a joined pair, with the rounded length of their intersection |
| InsightOverlaps.ResultIdsOrdered | src/services/insightService.js:14-27 | each result shows two distinct events, the smaller id first |
| InsightOverlaps.ResultNonNegative | src/services/insightService.js:28 | for events that do not end before they start, no result has negative minutes |
| InsightOverlaps.ResultComplete | src/services/insightService.js:13-29 | every joined pair of the table appears in some result |
| InsightGaps.Sweep | src/services/insightService.js:50-89 | the frontier, best gap and preceding event after the loop are `ScanAll`'s |
| InsightGaps.FindTemporalGaps | src/services/insightService.js:40-123 | the answer is `GapsOf` over the events of the range in start order: the sweep, the trailing gap, and the verdict |
| InsightGaps.ScanFrontier | src/services/insightService.js:84-88 | the frontier is at least `from` and every end seen; it is `from` when no event advanced it, and otherwise the end of the preceding event, which is one of the events |
| InsightGaps.FrontierMonotone | src/services/insightService.js:84-88 | the frontier never moves back |
| InsightGaps.ScanWellFormed | src/services/insightService.js:59-81 | the best gap starts at the frontier, never before `from`, and ends where its succeeding event starts; its neighbours border it; its minutes are its rounded length |
| InsightGaps.TrailingWellFormed | src/services/insightService.js:91-110 | after the trailing check the best gap is still well formed, and a trailing gap runs to `to` with no succeeding event |
| InsightGaps.ScanGapEmpty | src/services/insightService.js:54-89 | on sorted input, the best gap so far is disjoint from every event seen and ends no later than any event still to come |
| InsightGaps.TrailingGapEmpty | src/services/insightService.js:91-110 | the reported gap, trailing or not, is disjoint from every event |
| InsightGaps.GapsOfVerdict | src/services/insightService.js:43-122 | no events gives no gap; no gap comes exactly with the "No significant temporal gaps" message; a reported gap has positive minutes |
| InsightGaps.GapsOfEmpty | src/services/insightService.js:40-123 | a reported gap lasts at least 30000 ms, is well formed, and no event of the range covers any instant of it |
| InsightGaps.ReplaceDominates | src/services/insightService.js:63 | after one comparison, the winner is as good as the new gap and as everything the old best was as good as |
| InsightGaps.ScanDominates | src/services/insightService.js:54-89 | the best gap so far is as good as every gap met so far |
| InsightGaps.TrailingDominates | src/services/insightService.js:91-110 | the final best gap is as good as every gap met, the trailing one included |
| InsightGaps.AsWrittenMinutesLargest | src/services/insightService.js:59-110 | under the source's comparison, the reported minutes are the largest rounded minutes of any gap; with no gap reported, every gap rounds to at most 0 |
| InsightGaps.ScanEarliest | src/services/insightService.js:59-69 | under the exact comparison the best gap so far is the gap met before some event j, and every gap met before it is strictly shorter; with no best gap, no gap has been met |
| InsightGaps.ExactGapLargest | src/services/insightService.js:59-110 | under the exact comparison, the reported gap is at least as long as every gap; with no gap reported, every gap is shorter than half a minute; ties keep the earliest: a gap ending at an event is the gap before some event j, with every gap before it strictly shorter, and a trailing gap is strictly longer than every gap met |
| InsightGaps.AsWrittenMissesLongest | src/services/insightService.js:63 | two events on which the source's comparison reports a gap 6000 ms shorter than the longest, while the exact comparison reports the longest |
| Heap.Swap | src/services/insightService.js:161 | the two positions are exchanged, the rest is unchanged, and the items are the same |
| Heap.RootMin | src/services/insightService.js:142-151 | the root of a heap costs no more than any item |
| Heap.Children | src/services/insightService.js:170-171 | the children of i are 2i + 1 and 2i + 2, exactly the indices whose parent is i |
| Heap.UpStep | src/services/insightService.js:158-163 | swapping an item with a costlier parent moves the one disorder up a level |
| Heap.DownStep | src/services/insightService.js:168-177 | swapping an item with its cheaper, smallest child moves the one disorder down a level |
| Heap.DownDone | src/services/insightService.js:174 | when no child is cheaper, the heap is whole |
| Heap.RemoveRoot | src/services/insightService.js:145-148 | moving the last item to the root leaves the disorder only at the root and the same items minus the old root |
| Heap.MinHeap.constructor | src/services/insightService.js:133-135 | the heap starts empty |
| Heap.MinHeap.Size | src/services/insightService.js:153-155 | the size is the number of queued items |
| Heap.MinHeap.BubbleUp | src/services/insightService.js:157-164 | the heap property is restored, with the same items |
| Heap.MinHeap.SinkDown | src/services/insightService.js:166-178 | the heap property is restored, with the same items |
| Heap.MinHeap.Push | src/services/insightService.js:137-140 | the heap property holds and exactly the item is added; the size grows by one |
| Heap.MinHeap.Pop | src/services/insightService.js:142-151 | null on an empty heap, which stays empty; otherwise the old root is returned, costing no more than any queued item, and the remaining items are the old ones minus it |
| InfluenceGraph.EmptyAdjacency | src/services/insightService.js:203-208 | the first loop gives an adjacency key for every id of the rows |
| InfluenceGraph.AddLinks | src/services/insightService.js:210-217 | one row keeps the adjacency's keys |
| InfluenceGraph.AddLinksMember | src/services/insightService.js:211-216 | one row adds, to each list, exactly the link between the row and its known parent, in both directions |
| InfluenceGraph.LinksOf | src/services/insightService.js:210-217 | the second loop keeps the adjacency's keys |
| InfluenceGraph.LinksOfMember | src/services/insightService.js:210-217 | after the second loop, y is a neighbour of x exactly when it was before or some row links them |
| InfluenceGraph.AdjacencyOf | src/services/insightService.js:199-217 | the adjacency has a key for every id of the rows |
| InfluenceGraph.AdjacencyMember | src/services/insightService.js:210-217 | the neighbours of a known id are exactly the ids a row links it to as parent or child, counted only when the parent is a known event |
| InfluenceGraph.EdgeSymmetric | src/services/insightService.js:212-215 | every link goes both ways |
| InfluenceGraph.EdgeKnown | src/services/insightService.js:211 | both ends of a link are known events |
| InfluenceGraph.NeighboursKnown | src/services/insightService.js:199-217 | every neighbour is itself a key of the adjacency |
| InfluenceGraph.IndexRows | src/services/insightService.js:203-208 | the first loop builds `EventMapOf` and an empty list for each id |
| InfluenceGraph.WireLinks | src/services/insightService.js:210-217 | the second loop builds `LinksOf` |
| InfluenceGraph.BuildGraph | src/services/insightService.js:199-217 | the two loops build the event map and the bidirectional adjacency of the rows |
| InfluenceGraph.CostMonotone | src/services/insightService.js:286 | with no negative durations, a longer walk never costs less than its prefix |
| InfluenceGraph.CostSnoc | src/services/insightService.js:286 | extending a walk adds the new node's duration |
| InfluenceGraph.CostSingle | src/services/insightService.js:246-248 | a walk of the source alone costs the source's duration |
| Influence.StartInv | src/services/insightService.js:240-249 | the starting state, with the source at its own duration queued alone, satisfies the search invariant |
| Influence.PopFacts | src/services/insightService.js:252 | a node popped at minimum cost is reached at that cost, and with no negative durations no walk to it is cheaper |
| Influence.SkipInv | src/services/insightService.js:277 | skipping an already visited node keeps the invariant |
| Influence.SkipNeighbour | src/services/insightService.js:282 | a visited neighbour, or one that is already no costlier, is left alone without breaking the relaxation state |
| Influence.RelaxNeighbour | src/services/insightService.js:284-291 | giving a neighbour a lower cost through the node, with the node as its `prev` and a queued item, keeps the relaxation state |
| Influence.QueuePushed | src/services/insightService.js:291 | a pushed item with its lowered distance keeps every reached, unvisited node queued at its distance |
| Influence.Expand | src/services/insightService.js:280-293 | after the inner loop, every unvisited neighbour costs at most the popped cost plus its duration; distances only fall; each `prev` link is kept or points to the node; the queue covers the distances |
| Influence.VisitInv | src/services/insightService.js:277-293 | visiting the popped node and relaxing its edges keeps the search invariant, with the node ranked next |
| Influence.VisitNode | src/services/insightService.js:277-293 | the loop body for an unvisited popped node adds it to `visited` and keeps the search invariant |
| Influence.Exhausted | src/services/insightService.js:251-294 | when the queue runs dry no walk from the source reaches the target |
| Influence.FoundFacts | src/services/insightService.js:254 | when the target is popped, its cost is its distance and no walk to it from the source is cheaper |
| Influence.EndFacts | src/services/insightService.js:296-303 | when the loop ends without the target, the target is unreachable and differs from the source |
| Influence.Shrinks | src/services/insightService.js:278 | each visit leaves fewer known nodes unvisited, so the loop ends |
| Influence.Search | src/services/insightService.js:239-294 | either the target is unreachable, or its popped cost is its distance, no walk is cheaper with no negative durations, and every reached node but the source has a `prev` link; from an event to itself the cost is its own duration |
| Influence.TrailStep | src/services/insightService.js:258-266 | one step back along `prev` extends the walk ending at the target and keeps its cost equal to the target's distance |
| Influence.Reconstruct | src/services/insightService.js:256-266 | `path` shows the events of a walk of the graph ending at the target whose cost plus the distance before it is the target's distance; it is empty only for an empty target id and otherwise ends with the target's step; the walk stops at a node without a link |
| Influence.PrevChain | src/services/insightService.js:288-290 | following `prev` back from a reached node leads to the source along a walk |
| Influence.OutcomesDistinct | src/services/insightService.js:268-303 | the found-path and no-path messages differ |
| Influence.ShortestPath | src/services/insightService.js:239-303 | [] with "No temporal path found" exactly when no walk leads from source to target; otherwise the path shows a walk from source to target whose cost is the total, and no other walk is cheaper; from an event to itself the path is that event alone |
| Influence.FindEventInfluence | src/services/insightService.js:186-304 | no rows gives "No events found"; an unknown source is reported before an unknown target; otherwise the result is `ShortestPath` over the graph built from the rows |
| Timeline.NodeOf | src/services/timelineService.js:14-23 | a node has no children and holds every column of its row except `metadata` |
| Timeline.ChildIdsSnoc | src/services/timelineService.js:27-33 | one more row adds its id to a parent's children exactly when it names that parent |
| Timeline.IndexNodes | src/services/timelineService.js:13-24 | the first loop gives one childless node per id, from the last row with that id |
| Timeline.WireStep | src/services/timelineService.js:28-32 | one push keeps every node's children equal to those named by the rows so far |
| Timeline.WireChildren | src/services/timelineService.js:27-33 | the second loop appends to each node the ids of the rows naming it as parent, in row order, and changes nothing else |
| Timeline.BuildTree | src/services/timelineService.js:9-36 | the nodes are `Tree(flatEvents)`; the root is null exactly when no row has `rootId`, the empty list included; otherwise it is that id's node |
| Timeline.ChildIdsMember | src/services/timelineService.js:27-33 | an id is a child of p exactly when some row with that id names p as parent |
| Timeline.ChildIdsAppend | src/services/timelineService.js:27-33 | children are listed in input order: the children from earlier rows come first |
| Timeline.ChildIdsSingle | src/services/timelineService.js:28-31 | a single row contributes its own id to its parent and nothing elsewhere |
| Timeline.NodeContents | src/services/timelineService.js:13-24 | each node copies the seven columns of the last row with its id and lists exactly its children |
| Timeline.ChildOnce | src/services/timelineService.js:27-33 | with distinct ids, a row with a parent appears exactly once among that parent's children |
| Timeline.AttachedOnce | src/services/timelineService.js:27-33 | with distinct ids, a row whose parent is present appears exactly once in that parent node's children |
| Timeline.Unattached | src/services/timelineService.js:27-33 | with distinct ids, a row with no parent or an unknown parent is nobody's child |
| Timeline.NestingFollowsParents | tests/unit/timelineService.test.js:67-105 | rows forming a parent chain form a chain of nodes, each a child of the one before, from root to grandchild and beyond |

## Left out

- The HTTP layer (src/app.js, server.js, routes, controllers, error handler), the request validator, and the database configuration are not part of this model. They are framework wiring whose libraries are not visible.
- The database itself is not executed. The queries are modelled as functions over the table as a sequence of rows. The ILIKE name filter, the two date filters and the count query of `search` are not modelled. `EventService.SearchEvents` takes the store's answer as a function parameter.
- `getById` (src/models/eventModel.js:32-34) and `getAllForGraph` (src/models/eventModel.js:164-166) are not modelled as queries, since both are plain selections. `Influence.FindEventInfluence` takes the rows `getAllForGraph` returns as its input.
- `getTimeline` (src/services/timelineService.js:42-76) is not modelled. It only orchestrates three queries.
- File streaming, `readline`, logging, the fire-and-forget background job and concurrent jobs are not modelled. The file is its sequence of lines plus an optional read error after the last line delivered.
- Foreign calls become parameters: JavaScript's `Date` parsing, `crypto.randomUUID`, and the wall-clock stamps for `startTime` and `endTime`. `toISOString` is a function parameter in the round-trip lemma. The `parsedAt` stamp of an event's metadata is dropped. `path.basename` is the `sourceFile` of the ingestion context.
- Floating point is not modelled. Timestamps are integer milliseconds. `overlap_duration_minutes` and gap lengths are exact integers of ms, rounded with `RoundMin`. `parseFloat` and `parseInt` are replaced by integer inputs, with `None` standing for `NaN`.
- Timeline.BuildTree: the source's nodes are shared objects whose `children` arrays hold other nodes. The model lists children by id and reads the tree through the map from id to node, so the aliasing itself is not modelled.
- Heap.MinHeap: the JavaScript array is a `seq` field that the methods reassign, not an in-place `array`.
- Heap.MinHeap: `Push`, `Pop`, `BubbleUp` and `SinkDown` state the items as a multiset and the heap order, not the exact arrangement of the array. So the model does not say which of several items with equal cost `pop` returns first, and `Influence.ShortestPath` does not say which of several cheapest paths is returned.
- Influence.ShortestPath: the walk back stops at an empty id, as `while (current)` does. So the path's start and its cost are stated only when no event has the empty id.
- Influence.ShortestPath: minimality is stated only when no duration is negative. Dijkstra's search promises nothing otherwise.
- InfluenceGraph.Weight: a stored duration is always a number, so `duration_minutes || 0` is the duration itself. A null duration is not modelled.
- EventClosure.Subtree: the recursion is computed for `|table|` rounds. On an acyclic table it never reaches that bound (proved), while on cyclic data the database's recursion would not end.
- JobStore.Apply: an update can set a timestamp but not reset it to null. Update objects with keys outside the job record are not modelled.
- LineParser.IsNullParent: upper-casing is modelled for ASCII letters only.
- The overlap of a returned pair is not always positive. The join's strict comparisons return a zero-length event that lies strictly inside another with overlap 0 (`EventModel.OverlapOfInstant`). The model proves "never negative", and "positive when both events have positive length".

- EventModel.Stored: the store's `duration_minutes` is a generated column whose definition is not in the source. The model takes it to be `RoundMin(end - start)`, the same rounding the parser uses. `InfluenceGraph.Weight` and the timeline nodes read this value.
- Text.LexLess: the SQL comparison `a.event_id < b.event_id` is modelled as code-point order on strings. In the database the order depends on the column type and collation, which the source does not show.
- Text.Prefix: counts Unicode scalar values, while `substring(0, 120)` counts UTF-16 code units. On a line with characters outside the Basic Multilingual Plane within its first 120 units, the excerpt in the diagnostic differs.
- JobStore.JobRegistry: `createJob`, `getJob` and `updateJob` return the live job object, so a caller holding it sees later updates. The model returns the record as a value at the time of the call, so this aliasing is not modelled.

## Findings

| source | as written | input that shows it | evidently intended | confidence | as-written member | corrected member |
|---|---|---|---|---|---|---|
| src/services/insightService.js:63 | a new gap's exact length in minutes is compared with the best gap's rounded `durationMinutes` (also at line 95) | range [0, 12000000] ms, events [5424000, 6000000] and [11418000, 12000000]: the first gap is 90.4 minutes, stored as 90; the second is 90.3 minutes, which is more than 90, so it replaces the longer first gap | the largest gap is the longest one: compare with the best gap's exact length | not executed; low, the reported gap is shorter by less than one minute | InsightGaps.AsWrittenMissesLongest | InsightGaps.ExactGapLargest |
