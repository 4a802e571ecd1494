# Tephra, verified

Tephra is an append-only event store: a segment log with commit markers and crash recovery, a derived
index that must answer every query exactly as a linear scan of the log would, and a server that frames
requests and responses over a connection. This project models the parts where that is hard to see and
proves them with Dafny. `dafny verify dfyconfig.toml` checks everything.

What is proved, file by file:

- **The specification.** `Events.dfy` defines matching and the linear scan; `Names.dfy` the byte order of
  names; `Bytes.dfy` the shared byte arithmetic.
- **The derived index.** `Search.dfy` proves the query evaluator once, against any index whose probes are
  truthful. Four indexes are then shown truthful: a live view of a tail that is being fed
  (`Tail.dfy` splits `push` into atomic stores, `LiveView.dfy` quantifies over every run and every
  placement of a reader's loads), the full view of a quiet tail (`ActiveTail.dfy`), a sealed and
  reopened file (`Segment.dfy`, over `Header.dfy` and `Postings.dfy`), and a rebuilt tail
  (`Recovery.dfy`). `Append.dfy` is the chunked storage underneath. `IndexSet.dfy` puts them together:
  queries over the whole log, live or reopened. `UnlatchedView.dfy` is what a reader sees of a tail that
  stopped short. `Plan.dfy` is the planner's estimate.
- **The segment log.** `Record.dfy` holds the one parser, `Recover.dfy` the recovery scan and the crash
  theorems over entries, `SegmentWriter.dfy` the buffered writer whose every reachable state satisfies
  them, `SegmentReader.dfy` the readers that must agree with the parser, `CrashRead.dfy` the way from a
  crashed file back to the records.
- **Codecs.** `EventCodec.dfy` is the packed event format, `Framing.dfy` the resumable frame reader.
- **The connection.** `Egress.dfy` is the two-lane writer loop, down to what the peer reads;
  `Admission.dfy` the read budgets, `Wakeup.dfy` their sleeping waiters.

Five results say where the code stops short of the obvious claim:

- `IndexSet.IndexSet.Open`: opening rebuilds the active tail and sets the set's own unindexable flag, but
  not the latch on the tail it shares with readers. The two agree exactly when the active segment holds at
  most 65536 distinct types. Otherwise a reader takes `view(watermark)` of a tail that stopped before the
  first event of a rejected type. `UnlatchedView.WatermarkViewAnswers` says what that view shows: the events
  fed, then untagged events of the type with id 0, up to the capacity of the column's chunks. Every query
  through it is right exactly when the watermark exposes no more than the tail holds
  (`UnlatchedView.RightExactlyWithinTail`); past that, the query for the rejected type finds nothing
  (`UnlatchedView.RejectedTypeIsMissed`), and `UnlatchedView.RebuiltUnlatched` is a segment where that
  happens. Queries through the set are right either way (`IndexSet.Reopen`).
- `Record.DataSurvivesIff`: a record reads back exactly when its length fits 30 bits. The default limit on
  records keeps to that; `set_max_record` does not enforce it. The writer's crash theorems are about logs
  without such a record (`Readable`).
- `Recover.ExactRecoveryIff`: recovery never loses an acknowledged commit, and returns no more than those if
  and only if no complete batch follows them in the file. A batch rewound before its commit leaves none
  (`SegmentWriter.RewoundBatchIsExact`), nor does a segment never rewound
  (`SegmentWriter.Writer.CleanRecoveryIsExact`). A batch whose commit failed in its sync does: rewound, it is
  recovered as committed, records and all, if its bytes reach the disk
  (`SegmentWriter.FaultedCommitResurfaces`). The comment on `rewind_to` that discarded bytes carry no commit
  marker holds for the first and not for the last.
- `SegmentWriter.RewoundRecordIsReadIff`: the writer accepts a rewind to the middle of a record. The record
  appended there next, though its commit succeeds, is read back if and only if the rewind went to the end of a
  record instead. In a torn log it stays unread in every later state
  (`SegmentWriter.Writer.TornRecordIsNeverRead`), and recovery may even find nothing
  (`SegmentWriter.MidRecordRewindLoses`); what was acknowledged before is safe
  (`SegmentWriter.Writer.CrashLosesNothing`). The log only rewinds to the end of a record
  (crates/tephra/src/log/set.rs:552-586).
- `Egress.LateFrameIsLeft`: the writer loop can return with a frame queued, when the frame is sent and its
  lane closed after the lane was last found empty. `Egress.Connection.DriveWriter` states exactly what is
  written: everything sent up to that last look.

Assumptions, each a parameter or a hypothesis that can be read off the contracts:

- The checksum is any function of bytes to 32 bits. Where an empty record must not look like the end of
  the log, it must not map four zero bytes to zero (`Record.Distinguishes`). The source computes CRC-32
  (section 8 of RFC 1952), although its names say CRC-32C.
- UTF-8 validity is any predicate; the FST library returns the map it was built from when the keys ascend
  (`Segment.FstExact`); protobuf parsing is any partial function.
- Atomics are sequentially consistent. Positions and lengths are unbounded integers with the source's
  limits written out (`u16`, `u32`, `u64`, truncating casts).
- A segment holds at most 2^31 events, past which the covered count of the tail's column truncates to zero
  (`Append.AddressableWraps`) and which a log segment of `u32::MAX` bytes cannot hold. Its index fits a
  `u32`-addressed file, as the bound on segment size is meant to ensure (`IndexSet.Storable`,
  `IndexSet.Compact`). An encoded index opens if and only if it does (`Segment.ImageOpens`); that its offsets
  fit is not enough (`Segment.OversizeImage`). A panic in the source is an explicit outcome, or is ruled out
  by a precondition that names it.
- A rewind does not go below the flushed offset, as the source asserts
  (crates/seglog/src/write.rs:432-435). I/O faults of the segment writer strike at the two places the source
  injects them (crates/seglog/src/write.rs:278 and 465).
- An index file whose write fails holds a part of what was written from its start, and that does not open
  (`Segment.CutImageRejected`); anything else a crash may leave under its name is assumed not to open
  (`IndexSet.Possible`). When an index is opened, the file under the active segment's name, if it opens, was
  written for events that segment had, and no file beyond it opens (`IndexSet.Ahead`, which every operation
  keeps).
- A crash leaves the synced bytes below the flushed offset alone and may leave anything else.
- Environments are schedules: what other threads, sockets and files do at each step is arbitrary data.

## Model

| member | source | states |
|---|---|---|
| `Events.MatchLaws` | crates/tephra/src/query.rs:31-51 | items widen a query, tags narrow an item, types widen an item that has some, and with neither an item takes everything |
| `Events.TagsContained` | crates/tephra/src/query.rs:53-74 | the one-pass merge over two sorted tag lists says yes exactly when every required tag is present |
| `Names.LessIsLexicographic` | crates/tephra/src/index/tail.rs:244-263 | the order of names is that of their bytes: a proper prefix first, else by the first byte that differs |
| `Events.PostingsOfSpec` | crates/tephra/src/index/tail.rs:103-127 | the posting list an event run defines for a tag: ascending, exactly the locals that carry it |
| `Events.ScanSpec` | crates/tephra/src/query.rs:31-51 | the linear scan is ascending, duplicate-free and holds exactly the matching positions past the bound |
| `Events.ScanConcat` | crates/tephra/src/index/set.rs:265-280 | scanning adjacent runs one after the other is scanning them as one |
| `Events.ScanPruned` | crates/tephra/src/index/set.rs:221-252 | a run that ends at or before the bound contributes nothing, so it may be pruned |
| `Events.ScanBackIsScanReversed` | crates/tephra/src/index/search.rs:34-69 | for all bounds, the backward answer cut to above `a` is the reverse of the forward answer cut to below `b` |
| `Search.Search` | crates/tephra/src/index/search.rs:34-52 | over any index whose probes are truthful about a run of events, the evaluator returns exactly the scan of that run |
| `Search.SearchBack` | crates/tephra/src/index/search.rs:54-69 | the same match set, descending and strictly before the bound |
| `Search.LocalMatches` | crates/tephra/src/index/search.rs:71-89 | the union of the items' matches, sorted and deduplicated, is exactly the matching locals |
| `Search.ItemLocals` | crates/tephra/src/index/search.rs:92-131 | one item's locals: ascending, exactly those whose type and tags match, with the early exits for unknown types |
| `Search.ResolveTypes` | crates/tephra/src/index/search.rs:92-107 | the resolved ids stand for exactly the listed types, whichever moment the column is read at |
| `Search.TagCandidates` | crates/tephra/src/index/search.rs:116-131 | exactly the events carrying all the tags; none as soon as one tag is unknown |
| `Search.Intersect` | crates/tephra/src/index/search.rs:139-147 | walking a shortest list and binary-searching the others yields exactly the common elements, ascending |
| `Search.InAll` | crates/tephra/src/index/search.rs:139-147 | membership in every other list |
| `Search.BinarySearch` | crates/tephra/src/index/search.rs:139-147 | membership in an ascending list |
| `Search.SortDedup` | crates/tephra/src/index/search.rs:71-89 | the same elements, strictly ascending |
| `Append.ChunkedVec.Ensure` | crates/tephra/src/index/append.rs:82-101 | growth keeps every existing chunk in place, adds fresh ones, leaves the chunk count the tail's model grows to, and in total copies fewer handles than there are chunks |
| `Append.ChunkedVec.Push` | crates/tephra/src/index/append.rs:103-113 | the vector refines a plain sequence: one element is appended, nothing moves |
| `Append.ChunkedVec.SnapshotStaysValid` | crates/tephra/src/index/append.rs:124-148 | a snapshot taken at any earlier time shows every later element that falls in its chunks, and nothing past them |
| `Append.PostingSlot.PushLocal` | crates/tephra/src/index/append.rs:171-185 | one position is appended, inline or spilled, the list stays ascending, and the slot as a value becomes the one the tail's three stores make |
| `Append.PostingSlot.CollectBelow` | crates/tephra/src/index/append.rs:196-219 | exactly the prefix of the list below the bound, across the inline and spilled halves, and exactly what the tail's model collects from that slot |
| `Append.Grown` | crates/tephra/src/index/append.rs:82-101 | the chunk count after growth covers the element and never shrinks |
| `Append.Addressable` | crates/tephra/src/index/append.rs:145-148 | the `u32` cast of the covered count is exact if and only if the count fits, and never says more than the chunks hold |
| `Tail.StepKeepsInv` | crates/tephra/src/index/tail.rs:103-155 | every atomic store of `push`, latching included, keeps columns, tag map, type map and postings in agreement with the log |
| `Tail.StoreCellKeepsIndexed` | crates/tephra/src/index/append.rs:171-185 | a stored but unpublished posting is invisible to the count and in order |
| `Tail.StoreLenKeepsIndexed` | crates/tephra/src/index/append.rs:171-185 | publishing the count exposes exactly the value stored before it |
| `Tail.MapTagKeepsIndexed` | crates/tephra/src/index/tail.rs:130-139 | a tag is mapped only to a slot that exists and nobody else uses |
| `Tail.SlotHoldsVisible` | crates/tephra/src/index/tail.rs:207-221 | for any visible prefix, a tag's slot shows below that length exactly the prefix's postings |
| `LiveView.RunKeepsInv` | crates/tephra/src/index/tail.rs:103-155 | the invariant, and the watermark bound, hold in every reachable state of every run |
| `LiveView.RunExtends` | crates/tephra/src/index/append.rs:82-148 | along a run shared memory only grows: nothing published is ever undone |
| `LiveView.ProbePostings` | crates/tephra/src/index/tail.rs:294-302 | a posting probe whose loads are spread anywhere over the run collects exactly the visible postings |
| `LiveView.ProbeTermLen` | crates/tephra/src/index/tail.rs:304-311 | a length probe never undercounts the visible postings, nor passes the visible events |
| `LiveView.ProbeTypeId` | crates/tephra/src/index/tail.rs:313-324 | a type probe returns an id that stands for that type on every visible event, or none when no visible event has it |
| `LiveView.LateTermIsAbsent` | crates/tephra/src/index/tail.rs:294-302 | a term beyond the cloned backbone is not found, and has no visible event |
| `LiveView.ViewAnswers` | crates/tephra/src/index/tail.rs:187-221 | under every interleaving of the writer's steps with a reader's loads, every probe of the view is truthful about exactly the events at or before the watermark |
| `LiveView.SearchLive` | crates/tephra/src/read/mod.rs:1025-1040 | hence a live read returns the scan of the events its watermark exposes |
| `ActiveTail.FullViewAnswers` | crates/tephra/src/index/tail.rs:193-197 | the full view of a quiet tail is truthful about everything it was fed |
| `ActiveTail.FullViewProbes` | crates/tephra/src/index/tail.rs:207-221 | on a quiet tail the clamp of `make_view`, cast included, does not bite: the view is as long as the tail and its probes are unbounded ones |
| `ActiveTail.FullPostingsExact` | crates/tephra/src/index/tail.rs:294-311 | on a quiet tail the postings and the length are exact, and a tag is mapped exactly when some event carries it |
| `ActiveTail.QuietTypes` | crates/tephra/src/index/tail.rs:141-155 | the interned types are exactly the types that occur, at most 65536 |
| `ActiveTail.TypeFits` | crates/tephra/src/index/tail.rs:141-155 | a type is refused exactly when it would be the 65537th distinct one |
| `ActiveTail.ActiveTail.Push` | crates/tephra/src/index/tail.rs:103-127 | indexes the event, or rejects it exactly on type overflow with nothing changed |
| `ActiveTail.ActiveTail.InternTag` | crates/tephra/src/index/tail.rs:130-139 | finds or creates the tag's slot, slot before mapping |
| `ActiveTail.ActiveTail.PostLocal` | crates/tephra/src/index/tail.rs:103-127 | posts the local position, value and then count: the slot becomes what `PushLocal` makes of it and no other changes |
| `ActiveTail.ActiveTail.MarkUnindexable` | crates/tephra/src/index/tail.rs:173-182 | sets the latch and nothing else |
| `Postings.VarintRoundTrip` | crates/tephra/src/index/postings.rs:58-97 | every `u64` comes back in at most ten bytes whatever follows it |
| `Postings.VarintBounded` | crates/tephra/src/index/postings.rs:76-97 | nothing decodes to more than a `u64` or from more than ten bytes |
| `Postings.VarintErrors` | crates/tephra/src/index/postings.rs:76-97 | truncated exactly when every byte continues and there are fewer than ten, too large exactly when a tenth byte carries more than one bit |
| `Postings.EncodeVarint` | crates/tephra/src/index/postings.rs:58-69 | the loop writes the varint |
| `Postings.DecodeVarint` | crates/tephra/src/index/postings.rs:76-97 | the accumulator loop reads what the recursive definition reads, errors included |
| `Postings.EncodePostings` | crates/tephra/src/index/postings.rs:102-125 | the value and the bytes a list adds to the region |
| `Postings.DecodeDeltaBlock` | crates/tephra/src/index/postings.rs:173-199 | the block loop decodes as defined, with each overflow and truncation error |
| `Postings.PostingsRoundTrip` | crates/tephra/src/index/postings.rs:102-170 | a value still finds its list, and its length, whatever the region held before and whatever is appended later |
| `Postings.BlockErrors` | crates/tephra/src/index/postings.rs:173-199 | a block cut short anywhere is truncated, one with a position past 32 bits an overflow, one past the region out of bounds |
| `Postings.ValuesSay` | crates/tephra/src/index/postings.rs:128-170 | an inline value comes back exactly when it fits 32 bits; a block past the region is out of bounds, at its very end truncated, for length and list alike; unused tiers give their own errors |
| `Postings.SeriesRoundTrip` | crates/tephra/src/index/postings.rs:102-199 | for any series of lists in one growing region, each value decodes to its own list against the final region, and `posting_len` is its length |
| `Header.RoundTrip` | crates/tephra/src/index/header.rs:130-245 | a header decodes from its own encoding exactly when its version is known and its sections partition the body |
| `Header.EncodedSays` | crates/tephra/src/index/header.rs:158-245 | every header that fits its fields decodes from its own encoding to itself or to the first thing wrong with it |
| `Header.UnwrittenOrDamaged` | crates/tephra/src/index/header.rs:158-172 | all zeros, and nothing else, is unwritten; a checksum that does not agree is reported with both values |
| `Header.ForeignSays` | crates/tephra/src/index/header.rs:173-215 | with the checksum in order, a wrong magic, used padding and a misplaced column are each named |
| `Header.Canonical` | crates/tephra/src/index/header.rs:158-245 | what decodes is the encoding of what it decodes to, and is laid out |
| `Segment.TypeNames` | crates/tephra/src/index/tail.rs:236-242 | the names land at their ids whatever order the map is walked in |
| `Segment.TermsSorted` | crates/tephra/src/index/tail.rs:247-263 | every tag once, in ascending order, with its postings, whatever order the map is walked in |
| `Segment.EncodeAt` | crates/tephra/src/index/segment.rs:88-145 | the loops build exactly the laid-out image, or stop exactly when a length or offset does not fit |
| `Segment.EncodeTerms` | crates/tephra/src/index/segment.rs:105-117 | each term's value is the one its place in the region gives it |
| `Segment.ParseTypeDict` | crates/tephra/src/index/segment.rs:283-311 | the loop parses as defined, with its three errors |
| `Segment.TypeDictRoundTrip` | crates/tephra/src/index/segment.rs:95-103 | the dictionary gives every name back at its id without a stored count, at all 65536 of them |
| `Segment.TypeDictCanonical` | crates/tephra/src/index/segment.rs:283-311 | what parses as a dictionary is the encoding of the names it parses to |
| `Segment.CutDictRejected` | crates/tephra/src/index/segment.rs:283-311 | a dictionary that ends inside an entry is refused for its length or for its name |
| `Segment.ForeignNameRejected` | crates/tephra/src/index/segment.rs:283-311 | a name that is not UTF-8 is refused as such, whatever follows |
| `Segment.FromBytes` | crates/tephra/src/index/segment.rs:151-189 | the checks in order and what passes them |
| `Segment.OpensIff` | crates/tephra/src/index/segment.rs:151-189 | a file opens if and only if it is, byte for byte, some header and the sections it describes, body checksum included, with a dictionary of UTF-8 names and a term dictionary that opens |
| `Segment.SpelledOpens` | crates/tephra/src/index/segment.rs:151-189 | and then it opens to exactly those, or names the term dictionary as the fault |
| `Segment.DamagedBodyRejected` | crates/tephra/src/index/segment.rs:160-171 | a file whose body was changed in any way is rejected for its length, or for its checksum unless the checksums collide |
| `Segment.SectionsSit` | crates/tephra/src/index/header.rs:106-128 | the header's offsets cut the file into exactly the four sections |
| `Segment.ImageOpens` | crates/tephra/src/index/segment.rs:119-189 | a just-encoded segment opens exactly when the whole file is addressable by a `u32` |
| `Segment.CutImageRejected` | crates/tephra/src/index/segment.rs:151-222 | an image cut short anywhere, as a failing write leaves it, does not open: too short, of another length than its header says, or past what a `u32` addresses |
| `Segment.OversizeImage` | crates/tephra/src/index/segment.rs:119-145 | a tail whose every offset fits and whose file does not open, whatever the term dictionary's bytes |
| `Segment.SealedTypeId` | crates/tephra/src/index/segment.rs:256-262 | the linear scan finds each type's own id |
| `Segment.SealedTypeAt` | crates/tephra/src/index/segment.rs:264-267 | the column cell of every event reads back |
| `Segment.SealedTerm` | crates/tephra/src/index/segment.rs:237-254 | a term's postings and length are those of the tail's full view, and never hit the integrity panic |
| `Segment.SealPreservesMeaning` | crates/tephra/src/index/segment.rs:88-189 | sealing preserves meaning: every probe of the opened file answers as the full tail view does, so every query is the scan of what the tail was fed |
| `Recovery.Rebuilder.Feed` | crates/tephra/src/index/recovery.rs:61-69 | the count stays exact, the latch means exactly more than 65536 distinct types, the tail holds all or the longest indexable run |
| `Recovery.Rebuild` | crates/tephra/src/index/recovery.rs:83-92 | a rebuild is the feed of the segment's events in order |
| `Recovery.RebuildRange` | crates/tephra/src/index/set.rs:410-430 | over the log's records: fails exactly at the first record that cannot be read or decoded, else the feed of the decoded events, with the exact count |
| `IndexSet.ErrsExactlyWhenUnindexable` | crates/tephra/src/index/set.rs:221-280 | a query errs exactly when some position past the bound lies in a segment with too many types, and the error names all of the first such segment; otherwise it is the scan of the whole event sequence |
| `IndexSet.ScanBySegment` | crates/tephra/src/index/set.rs:265-280 | concatenating the touched segments' answers is scanning the whole log |
| `IndexSet.LoadValid` | crates/tephra/src/index/set.rs:349-370 | a file it accepts, if disk is trustworthy, answers for exactly that log segment; a genuine file that is addressable is never rejected; an error only when the read fails |
| `IndexSet.GenuineOpens` | crates/tephra/src/index/set.rs:349-370 | a file the sealer wrote opens exactly when it is addressable, carries the segment's base and count, and answers for exactly that segment |
| `IndexSet.MisplacedRejected` | crates/tephra/src/index/set.rs:349-370 | a genuine file is taken for a segment exactly when it is addressable and base and count are its own |
| `IndexSet.Seal` | crates/tephra/src/index/set.rs:184-198 | encoding and opening a tail succeeds and answers for what it was fed |
| `IndexSet.OpenSegment` | crates/tephra/src/index/set.rs:374-406 | loaded or rebuilt from the log's records, the entry covers its segment, and has no index exactly when the segment overflows; what it hands over to be written is genuine; refused exactly when the file cannot be read, or is no use and a record is defective |
| `IndexSet.FeedTail` | crates/tephra/src/index/set.rs:146-164 | feeding latches, on the shared tail too, at the first type too many |
| `IndexSet.IndexSet.Open` | crates/tephra/src/index/set.rs:88-125 | opening over any mix of missing, rejected and genuine files, any outcome of writing the rebuilt ones and a log of which any record may be damaged: an index of the whole log, or the error of some unreadable file or first defective record; it opens whenever files can be read and records are sound; the shared tail shows the latch exactly when the active segment does not overflow; files stay trustworthy either way, and what was rebuilt and written whole is taken as it is by the next open |
| `IndexSet.IndexSet.Push` | crates/tephra/src/index/set.rs:146-164 | one event joins the active segment; the sealed side is untouched; the latch stays in step |
| `IndexSet.IndexSet.SealActive` | crates/tephra/src/index/set.rs:173-212 | the active segment becomes a sealed entry and an empty one starts, however the write ends, its genuine file written as far as that went; an unindexable segment leaves the files alone; no later open is misled by what already lay under the segment's name |
| `IndexSet.IndexSet.PlanTouched` | crates/tephra/src/index/set.rs:221-256 | exactly the segments holding something past the bound, or the first of them that cannot be answered |
| `IndexSet.IndexSet.SearchAll` | crates/tephra/src/index/set.rs:265-280 | the specified answer, error range included, in every reachable state |
| `IndexSet.IndexSet.FindMatch` | crates/tephra/src/index/set.rs:297-312 | the least element of that answer, with the same error |
| `IndexSet.WriteKeepsFiles` | crates/tephra/src/index/set.rs:173-212 | however the attempt to write one segment's file ends, cut short anywhere included, no later open is misled, even where an empty segment shares its name |
| `IndexSet.LeftoverTrusted` | crates/tephra/src/index/set.rs:349-370 | a file written for the events a segment had at some earlier point is never taken for the segment's |
| `IndexSet.Reopen` | crates/tephra/src/index/set.rs:88-125 | an index reopened with any files missing or damaged answers every query as the live-fed one does, errors and counts included, or fails on a named unreadable file or defective record |
| `UnlatchedView.WatermarkViewAnswers` | crates/tephra/src/index/tail.rs:199-221 | the view of a tail that stopped short, clamped to chunk capacity, is truthful about the events fed followed by untagged ones of the type with id 0 |
| `UnlatchedView.ReadUnlatched` | crates/tephra/src/read/mod.rs:1025-1040 | so a read through it returns the scan of those |
| `UnlatchedView.RejectedTypeIsMissed` | crates/tephra/src/read/mod.rs:1019-1040 | past what the tail holds, the query for the rejected type finds nothing though its first event is exposed |
| `UnlatchedView.RightExactlyWithinTail` | crates/tephra/src/read/mod.rs:1019-1040 | every query through the view is the scan of the exposed events exactly when the watermark exposes no more than the tail holds |
| `UnlatchedView.RebuiltUnlatched` | crates/tephra/src/index/recovery.rs:61-92 | a segment where it is wrong: 65537 events of as many types, rebuilt, leave an unlatched tail through which the last published event is not found |
| `UnlatchedView.SharedTailRight` | crates/tephra/src/index/set.rs:110-125 | with everything published, readers of a set's unlatched tail are right exactly when the active segment is indexable |
| `Plan.EstimateMatches` | crates/tephra/src/index/plan.rs:43-58 | at least the true matches in the window and at most its width, early return and saturation included; over exact lengths, exactly the capped sum of the items' bounds |
| `Plan.EstimateItem` | crates/tephra/src/index/plan.rs:68-80 | the same for one item: over exact lengths, exactly its shortest posting list, capped |
| `Plan.QuietTailIsExact` | crates/tephra/src/index/tail.rs:304-311 | a quiet tail's term lengths are exact |
| `Plan.SameProbesExact` | crates/tephra/src/index/segment.rs:246-254 | and so are those of the segment it seals to |
| `Plan.ChooseIsSelective` | crates/tephra/src/index/plan.rs:89-95 | the index is chosen exactly when the bias times the estimate fits the range, saturation or not, and so only when the bias times the true matches does |
| `Record.FrameParses` | crates/seglog/src/parse.rs:56-132 | a framed entry parses back as what it is, wherever it sits |
| `Record.ParsesIff` | crates/seglog/src/parse.rs:56-132 | a record is returned exactly where a caller's entry with room for its header was framed, a control record reported exactly where a control entry was |
| `Record.ErrorsMean` | crates/seglog/src/parse.rs:56-132 | eight zeros end the log, a set top bit is corruption, and a record is out of bounds, or too short for its header, exactly by what its four length bytes declare |
| `Record.DataSurvivesIff` | crates/seglog/src/write.rs:255-293 | a caller's record survives its own framing exactly when its length fits 30 bits and, if empty, the checksum of a zero length field is not zero |
| `Record.CheckedIsFramed` | crates/seglog/src/parse.rs:56-132 | a head whose checksum agrees is the frame of exactly the entry it reads as |
| `Record.MarkerPosition` | crates/seglog/src/write.rs:328-352 | a marker gives its position back |
| `Record.ControlLenIsParse` | crates/seglog/src/read.rs:552-586 | what the iterator steps over is exactly what the parser reports as a control record, with the same length |
| `Recover.RecoverFile` | crates/seglog/src/write.rs:514-569 | the cursor loop computes the recovery scan as defined |
| `Recover.RunRecovered` | crates/seglog/src/write.rs:514-569 | scanning over whole entries adds exactly what their markers commit |
| `Recover.RunDrained` | crates/seglog/src/read.rs:602-627 | iterating over whole entries yields the callers' records in order and no control record |
| `Recover.CrashKeepsAcked` | crates/seglog/src/write.rs:514-569 | whatever a crash leaves past the durable bytes, recovery ends at or past the last acknowledged commit and reading up to there yields every acknowledged record first, in order |
| `Recover.TornBatchRollsBack` | crates/seglog/src/write.rs:499-569 | a batch cut anywhere, marker included, is rolled back whole: exactly the previous commit's end and position |
| `Recover.ZeroTailIsExact` | crates/seglog/src/write.rs:510-569 | with only zeros after the last commit, recovery returns exactly that commit |
| `Recover.RecoveredExtendsAcked` | crates/seglog/src/write.rs:198-231 | what recovery keeps is a settled run of whole entries that continues what was acknowledged |
| `Recover.ExactRecoveryIff` | crates/seglog/src/write.rs:499-569 | over any image, recovery returns exactly the acknowledged commits if and only if no complete batch follows them |
| `Recover.UnmarkedIsNoBatch` | crates/seglog/src/write.rs:424-447 | whole entries without a marker, with the scan stopping behind them, are no batch |
| `Recover.StumpIsSteppedOver` | crates/seglog/src/read.rs:602-627 | whole entries and then part of one: whatever follows and whatever the checksum, no reader ever stands at the end of that part |
| `Recover.DamageIsReported` | crates/seglog/src/read.rs:602-627 | a payload changed in any way, unless the checksums collide, ends an iteration with its own error after the records before it, never as the end of the log |
| `SegmentWriter.CreateSegment` | crates/seglog/src/write.rs:104-157 | a fresh segment of zeros with nothing appended, refused exactly when its size is not past the start offset |
| `SegmentWriter.OpenSegment` | crates/seglog/src/write.rs:198-231 | after a crash, over a file and segment of any size: goes on from the recovered end and position, everything acknowledged before still in place and the file untouched; refused exactly when the size is not past the start offset |
| `SegmentWriter.Writer.WriteAll` | crates/seglog/src/write.rs:285-290 | buffered, flushed first or written through, the file plus buffer gains exactly these bytes at the end, and the buffer holds what a `BufWriter` of its size would |
| `SegmentWriter.Writer.Append` | crates/seglog/src/write.rs:255-296 | lays one framed record down at the write offset, or fails with nothing written: too large, else segment full, else on a fault, each exactly when and with its numbers; the log stays readable exactly when the record fits 30 bits, which the default limit ensures |
| `SegmentWriter.Writer.Commit` | crates/seglog/src/write.rs:319-366 | succeeds exactly when the marker fits and the sync does, and then everything appended to a log that is not torn is acknowledged; a full segment is named with its numbers; a failed sync leaves the marker behind and the remembered position ahead |
| `SegmentWriter.Writer.Sync` | crates/seglog/src/write.rs:458-472 | advances the flushed offset to the write offset, or on a fault leaves it |
| `SegmentWriter.Writer.RewindTo` | crates/seglog/src/write.rs:427-447 | to any offset not below the flushed one: drops exactly the entries that do not end by there, leaves every byte in the file, and tears the log exactly when part of an entry remains |
| `SegmentWriter.Writer.SetMaxRecord` | crates/seglog/src/write.rs:375-377 | clamped to the space for a marker only |
| `SegmentWriter.LimitsLeaveRoom` | crates/seglog/src/write.rs:480-496 | the hard limit is the largest record after which a marker still fits; the default is a quarter of the segment within that and 30 bits |
| `SegmentWriter.Writer.CrashLosesNothing` | crates/seglog/src/write.rs:255-472 | after any run of appends, commits, syncs, faults and rewinds to anywhere unsynced, any crash that spares the synced bytes loses no acknowledged record appended before the log was torn, if it ever was; `TornRecordIsNeverRead` says what becomes of one written at the tear |
| `SegmentWriter.Writer.RecoveryIsExactIff` | crates/seglog/src/write.rs:424-569 | in every such state and for every such image, recovery is exact if and only if no complete batch follows the acknowledged entries |
| `SegmentWriter.Writer.TornRecordIsNeverRead` | crates/seglog/src/write.rs:427-447 | in every state of a torn log, and from every image that has its bytes up to the tear, no reader returns the record written there, however much was committed since |
| `SegmentWriter.Writer.CleanRecoveryIsExact` | crates/seglog/src/write.rs:514-569 | right after a commit of a segment never rewound nothing follows, so recovery is exact |
| `SegmentWriter.Writer.TornBatchLeavesPrevious` | crates/seglog/src/write.rs:514-569 | the last batch cut short leaves exactly the commit before it |
| `SegmentWriter.FaultedCommitResurfaces` | crates/seglog/src/write.rs:424-472 | after any batch whose commit fails in its sync and is rewound, a complete batch follows: recovery of the file as it stands takes it for committed, and its unacknowledged records are read back after the acknowledged ones |
| `SegmentWriter.RewoundBatchIsExact` | crates/seglog/src/write.rs:424-447 | any batch rewound before its commit leaves no batch behind, and recovery of the file as it stands is exact |
| `SegmentWriter.RewoundRecordIsReadIff` | crates/seglog/src/write.rs:427-447 | for every whole log, every unsynced offset and every residue of a crash: a record appended at the rewound offset and successfully committed is read back if and only if the offset is the end of an entry and the record fits 30 bits |
| `SegmentWriter.MidRecordRewindLoses` | crates/seglog/src/write.rs:427-447 | one instance at its worst: a rewind to the middle of a record, then a record and a successful commit, and recovery finds nothing at all |
| `SegmentReader.ReadAheadBuf.Read` | crates/seglog/src/read.rs:662-685 | any range inside the file comes back as the file has it, from a window that stays if it covers the range and else from one refilled; past the file, an error |
| `SegmentReader.ReadAheadBuf.Fill` | crates/seglog/src/read.rs:687-718 | however short the reads, the refilled window is aligned, in whole pages, covers the request as far as the file goes and equals the file |
| `SegmentReader.Reader.ReadRecord` | crates/seglog/src/read.rs:225-347 | random through the reader's buffers or sequential through the window: exactly what the parser says of the flushed prefix, errors and panic included |
| `SegmentReader.Reader.ReadRandom` | crates/seglog/src/read.rs:242-346 | the optimistic, fallback and allocated buffers agree with the parser |
| `SegmentReader.Reader.ReadSequential` | crates/seglog/src/read.rs:349-416 | the read-ahead path agrees with the parser |
| `SegmentReader.Reader.Peek` | crates/seglog/src/read.rs:190-219 | ends where the parser ends, reports what the parser calls corrupt, and classifies everything else by its four length bytes, damaged or not |
| `SegmentReader.Reader.ControlLenAt` | crates/seglog/src/read.rs:552-586 | through the window, exactly the control records of the flushed prefix |
| `SegmentReader.Reader.ReplaceHeaderWith` | crates/seglog/src/read.rs:502-542 | the record reads back with the new header, the same data and a valid checksum; no byte outside it changes; the window stays coherent |
| `SegmentReader.OthersUnchanged` | crates/seglog/src/read.rs:502-542 | everything past the record, and every record of any kind that ends at or before it, parses as before |
| `SegmentReader.Iter.NextRecord` | crates/seglog/src/read.rs:608-627 | past the control records, yields the next data record and leaves exactly the rest; ends exactly where the parser is out of bounds or at a truncation marker, and passes every other error on |
| `CrashRead.RecoverAndRead` | crates/seglog/src/write.rs:198-231 | recover a crashed file of a segment of any size, then iterate through the reader's buffers: exactly the records of the recovered prefix, every acknowledged one first and in order, and a clean end unless a record is too short for the caller's header |
| `CrashRead.CrashAndRead` | crates/seglog/src/write.rs:198-231 | the same from any state of the writer and any crash that spares its synced bytes |
| `CrashRead.ReadAll` | crates/seglog/src/read.rs:602-627 | all an iterator yields and how it ends: cleanly, or on the error of the record it cannot get past |
| `CrashRead.RunEndsCleanly` | crates/seglog/src/read.rs:602-627 | reading exactly a run of whole entries ends cleanly when each has room for its header |
| `EventCodec.Encode` | crates/tephra/src/event.rs:97-140 | the buffer filled is the layout, or the tag-count or size error |
| `EventCodec.FromBytes` | crates/tephra/src/event.rs:192-251 | the loops decode as defined, with the errors in their order |
| `EventCodec.DecodeEncoded` | crates/tephra/src/event.rs:97-251 | decoding an encoded event returns its type, sorted tags and payload |
| `EventCodec.EncodeSays` | crates/tephra/src/event.rs:97-140 | an event is refused for the number of its tags, else for what precedes its payload passing 32 bits, and otherwise is its layout |
| `EventCodec.LayoutSays` | crates/tephra/src/event.rs:192-251 | the layout of every event decodes to it, or to the first of: empty type, empty tag, too large, type not UTF-8, first bad tag |
| `EventCodec.CutLayoutTruncated` | crates/tephra/src/event.rs:192-251 | a layout cut anywhere before its payload is truncated |
| `EventCodec.EncodeDecoded` | crates/tephra/src/event.rs:192-251 | every accepted byte string is exactly the re-encoding of what it decodes to, with the same 32-bit bound |
| `EventCodec.TagsRef.Next` | crates/tephra/src/event.rs:350-361 | yields the event's tags one by one, in order |
| `Framing.WriteFrame` | crates/tephra-proto/src/framing.rs:64-80 | writes the frame, or nothing when the body passes the limit |
| `Framing.UnframeWritten` | crates/tephra-proto/src/framing.rs:64-110 | a stream of written frames reads as exactly their bodies |
| `Framing.CutStream` | crates/tephra-proto/src/framing.rs:82-110 | cut anywhere, the whole frames come out and the end is clean exactly on a frame boundary |
| `Framing.OversizeStops` | crates/tephra-proto/src/framing.rs:170-226 | a frame past the limit stops the stream where it starts, after every frame before it |
| `Framing.Socket.ReadOnce` | crates/tephra-proto/src/framing.rs:251-273 | one read of some bytes, an end, a would-block or a failure, exactly as the transport does next once it is not interrupted |
| `Framing.FrameReader.Poll` | crates/tephra-proto/src/framing.rs:170-226 | a message consumes exactly its frame, everything else consumes nothing; in progress exactly when the frame is partly buffered; each error means what it says; a refused frame tears the stream for good |
| `Framing.FrameReader.Finish` | crates/tephra-proto/src/framing.rs:231-240 | a parsed body returns the reader to a boundary, one that does not parse stays |
| `Framing.ReadAll` | crates/tephra-proto/src/framing.rs:170-273 | under every schedule of read sizes, would-blocks and interrupts, exactly the frames of the stream in order, and clean end exactly on a boundary |
| `Framing.ReadFrame` | crates/tephra-proto/src/framing.rs:87-110 | one frame and nothing of the next; a clean end only with nothing left; a would-block is a failure; every error says how the stream reads or what the transport did |
| `Egress.Connection.DriveWriter` | crates/tephra-server/src/conn.rs:1085-1145 | an order-preserving merge with nothing lost or repeated; control first: every bulk frame goes out after the control lane was found empty or after 64 control frames in a row, so over closed lanes with no more control than that all control precedes all bulk; never more than 65 control frames past a waiting bulk frame; on return, what was written is exactly what had been sent when each lane was last found empty, which over lanes closed beforehand is everything; when it returns or parks everything written has been flushed; it fails only on a refused frame or a failed flush and parks only with nothing to do; the bytes read back as exactly the frames written, with a clean end unless a write failed partway |
| `Egress.ControlBeforeBulk` | crates/tephra-server/src/conn.rs:1092-1111 | over a control lane that takes no more than one run, every control frame is written before any bulk frame |
| `Egress.Connection.Turn` | crates/tephra-server/src/conn.rs:1090-1144 | one turn of the loop: what its control run writes is flushed before anything else goes out |
| `Egress.LateFrameIsLeft` | crates/tephra-server/src/conn.rs:1113-1138 | a frame sent and its lane closed between the last look at the lane and the disconnect check is left queued when the loop returns |
| `Egress.Connection.ControlRun` | crates/tephra-server/src/conn.rs:1092-1111 | the control run ends with the lane found empty, or with bulk waiting after a full run of 64 |
| `Egress.Connection.BulkFrame` | crates/tephra-server/src/conn.rs:1113-1124 | one bulk frame if there is one, which ends any run past it |
| `Egress.Connection.Coalesce` | crates/tephra-server/src/conn.rs:1114-1122 | after a bulk frame: with nothing more queued everything written has been flushed, with something queued nothing is |
| `Egress.Connection.Idle` | crates/tephra-server/src/conn.rs:1129-1143 | returns exactly when both lanes were seen disconnected, else takes one more frame |
| `Egress.Connection.Write` | crates/tephra-server/src/conn.rs:1085-1145 | a taken frame goes out whole in its lane's order, or the loop fails with none of it written, if it is too large, or any part of it |
| `Egress.Connection.PeerReads` | crates/tephra-proto/src/framing.rs:64-110 | in every state of the loop the bytes handed over unframe to exactly the responses written, in order |
| `Admission.Semaphore.TryAcquire` | crates/tephra-server/src/conn.rs:1408-1416 | takes a permit exactly when one is free |
| `Admission.Semaphore.AcquireOrCancel` | crates/tephra-server/src/conn.rs:1432-1456 | one locked pass: gives up once cancelled, signalling another waiter exactly when a permit stays free, takes a free permit, else sleeps |
| `Admission.Semaphore.AcquireGuardOrCancel` | crates/tephra-server/src/conn.rs:1432-1456 | the whole wait, whatever other threads do between its looks: ends at the first where it is cancelled or a permit is free |
| `Admission.Semaphore.Release` | crates/tephra-server/src/conn.rs:1418-1421 | gives one permit back |
| `Wakeup.StepKeepsInv` | crates/tephra-server/src/conn.rs:1399-1456 | every locked pass, signal and timeout keeps: while anyone sleeps, each free permit has a waiter awake or a signal on its way |
| `Wakeup.NoLostWakeup` | crates/tephra-server/src/conn.rs:1399-1456 | in every state of every run, no waiter sleeps beside a free permit with nobody awake and no signal on its way |
| `Wakeup.SilentDeclineStrands` | crates/tephra-server/src/conn.rs:1436-1443 | a run after which a cancelled waiter that left without its signal would strand a sleeper beside a free permit, and the signal does not |
| `Wakeup.Waiters.Look` | crates/tephra-server/src/conn.rs:1432-1456 | a locked pass of the semaphore is the step of taking, sleeping or giving up, its signal included |
| `Wakeup.Waiters.Try` | crates/tephra-server/src/conn.rs:1408-1416 | likewise the attempt that does not wait |
| `Wakeup.Waiters.Return` | crates/tephra-server/src/conn.rs:1418-1421 | likewise the release, its signal still to come |
| `Admission.StepKeepsInv` | crates/tephra-server/src/conn.rs:724-780 | every critical section and store, the permit and the slot attempt apart, keeps free plus held equal to capacity in both budgets and every read's books in order |
| `Admission.Bounded` | crates/tephra-server/src/conn.rs:745-757 | unfinished reads never exceed twice the capacity |
| `Admission.RunBalances` | crates/tephra-server/src/conn.rs:1235-1279 | over every interleaving: balanced budgets, the bound, and each gone read has released exactly what it took |
| `Admission.IdleIsWhole` | crates/tephra-server/src/conn.rs:1458-1465 | with nothing unfinished both budgets are whole again |
| `Admission.OverflowWithPermitFree` | crates/tephra-server/src/conn.rs:745-757 | the two attempts interleave: a read can end in overflow while a permit is free |
| `Admission.ReadBudgets.TryPermitGuard` | crates/tephra-server/src/conn.rs:745-746 | the semaphore does what the permit attempt does to the protocol |
| `Admission.ReadBudgets.TrySlotGuard` | crates/tephra-server/src/conn.rs:747-757 | likewise the slot attempt, refusal included |
| `Admission.ReadBudgets.AwaitPermit` | crates/tephra-server/src/conn.rs:1259-1270 | one pass of the wait on the worker: a permit, a give-up that returns the slot, or waiting on with none free |
| `Admission.ReadBudgets.DropSlot` | crates/tephra-server/src/conn.rs:1262-1264 | the slot goes back once the permit is held |
| `Admission.ReadBudgets.DropGuard` | crates/tephra-server/src/conn.rs:1458-1465 | a read's last guard goes back to the budget it came from |

## Left out

- `SegmentSet`, the write coordinator, tag tips, snapshots and subscriptions: the log is the event sequence by segment and the published watermark.
- `Writer::set_len`, and writes that fail partway: neither keeps the buffered cursor in step with the write offset, so the invariants proved here do not cover them.
- The read-ahead window after another handle changes the file: coherence is proved for a file that is unchanged or changed through the same reader's header replacement, which is all the code provides.
- Framing.FrameReader.Poll: the body buffer's retained capacity is not modelled.
- LiveView.SearchLive: the log scan a reader falls back to on a latched segment is not modelled, nor the planner's choice between the two.
- Admission.Semaphore.AcquireGuardOrCancel: the length of the poll interval is not modelled, so nothing is claimed about how soon a cancelled waiter wakes.
- Weak memory ordering, wall-clock time, TLS, sockets, keepalive, metrics, settings and authentication.
- The blocking and async clients, wire conversions, and the async framing twins, which would only repeat easy members.
- Internals of the checksum, FST, concurrent map, protobuf and channel libraries.
- Opening and syncing files and directories for index segments: a file is its bytes.
