# A model of the Wi-Fi monitor and its hash table

The repository holds a terminal monitor for 802.11 frames (`user/src`) and, beside it, a copy of
uthash 2.3.0 (`user/src/uthash.h`). This project models both and proves what their code keeps,
over every run.

## The hash table

Every element of a uthash table is in two doubly linked structures at once: the list in
application order (`prev`, `next`, with the table's `tail`) and the chain of its bucket
(`hh_prev`, `hh_next`).

- `HashTypes` has the element's handle and the table as classes, `HashModel` the same table as a
  value: the list, the chains, the statistics, and what each operation makes of them.
- `HashBuckets`, `HashLists`, `HashTable`, `HashSort`, `HashUse` and `HashFsck` are the macros as
  methods on the heap. Each is proved to turn the value of the table into what `HashModel` says, with
  every pointer of both structures, the counts and `tail` accounted for (`HashTable.Rep`).
- `HashInvariant`, `HashRuns` and `HashPolicy` prove what every operation and every run keeps,
  `HashExpansion` what an expansion does and `HashLookup` what that means for lookups, `StableSort`
  that the bottom-up merge sort and insertion in order both compute the one stable sort. `HashHeapRuns`
  carries runs over to the heap, `HashCases` has short runs from the empty table.
- `JenkinsHash` and `FoldHash` are the hash functions, with `JenkinsCode` a second, literal transcription
  of the first, and `BloomFilter` the optional filter.

The head variable that the macros assign is a parameter and a result of the methods, together
with a ghost value of the table. Keys are byte sequences, hash values any function of them. Whether
an allocation succeeds is a parameter (`Memory`), so the failing branches of `HASH_NONFATAL_OOM` are
modelled. `hashv & (n - 1)` is written out bit by bit (`HashBits.LowBits`).

## The monitor

- `InfoElements` and `IeIterator` are the elements of management frames and the iterator over them;
  bytes past the end of what was copied are an arbitrary function, so that reads out of bounds show.
  `FrameBodies` has the fixed parameters of each frame, field by field. `SsidScan` is the fold of the
  SSID elements into a record.
- `TrackerModel` is one frame, one sweep and one key as functions on the state of `struct ctx`;
  `ApTracker` is the code in place, proved to compute these functions.
- `TrackerRuns` proves the invariant over all runs, `TrackerTable` that the array acts as a table
  keyed by address, `TrackerHistory`, `TrackerTimes`, `TrackerCounts` and `TrackerCounters` what
  names, times, counters and frequencies are after any run, `TrackerCursor` where the cursor is and
  `TrackerKeys` where the keys move it; `TrackerCases` has short
  runs from the start.
- `PacketRing` is the packet window, `ChannelHop` the channels.

One clock value is used for each frame and each sweep, the number of colours and the window height
are parameters. A record of a new access point is made in a slot that keeps what its last tenant
left, so statements about counters and frequencies are about every slot.

What the proofs bring out about the code:

- `ie_iter_next` gives up on a list of two bytes, so a single element without a body is lost
  (`InfoElements.RoundTrip` says this is the only list that is).
- Reads pass the end of a frame's elements only through a header that straddles it or an SSID element
  that runs over it; other elements may be cut short (`InfoElements.ReadsStayInside`, `ReadsThatPassTheEnd`).
- A probe response does not set `last_seen`: a sweep after it keeps the new access point exactly when
  it would keep the last tenant of the slot (`TrackerHistory.ProbedNewcomerExpires`), so one heard
  right after the start is gone with the first sweep (`TrackerCases.ProbedAloneIsLost`).
- A sweep that leaves some access points, but no more than the cursor is high, puts the cursor one past
  the last, and nothing else does (`TrackerCursor.CursorStays`; `TrackerCases.CursorPastTheEnd` is
  such a run).
- The last row of the packet window shows the slot being filled, hence possibly a beacon or a probe
  request (`PacketRing.RowsShowLatest`).
- Where two elements share a key, an expansion changes which one is found (`HashLookup`,
  `HashCases.TenthAddTurnsLookup`); a replace that finds no memory for its new item loses the key
  (`HashRuns.StepFinds`, `HashCases.ReplaceLosesKey`).
- After an expansion a bucket's `expand_mult` is its count over the ideal length, rounded up, or one
  less: `HashExpansion.MultExact` says which, case by case.

## Model

| member | source | states |
|---|---|---|
| StableSort.MergeSortIsTheStableSort | user/src/uthash.h:890-972 | For every total preorder, the merge sort returns t exactly when t is a permutation of the input, sorted, with equivalent elements in their old order: the stable sort is unique and this is it |
| StableSort.MergeSortIsInsertAll | user/src/uthash.h:350-381 | The bottom-up merge sort equals inserting the elements one by one in order |
| StableSort.PassDoublesRuns | user/src/uthash.h:899-966 | One pass of the outer loop over sorted runs of length w leaves sorted runs of length 2w |
| StableSort.MergeSortPermutes | user/src/uthash.h:890-972 | For any comparison function at all, the result is a permutation of the input |
| HashSort.HashSort | user/src/uthash.h:890-972 | For any comparison function the in-place sort ends; the list is the sorted one with prev and next mutually inverse, head first and tail last, and chains, counts and filter untouched |
| HashSort.MergeNext | user/src/uthash.h:905-956 | One round of the inner loop finds the second run and merges the two by relinking |
| HashInvariant.SortKeepsInv | user/src/uthash.h:890-972 | Sorting keeps the invariant: list and chains still hold the same elements |
| HashTable.HashAdd | user/src/uthash.h:396-415 | Appending: on success the element is last in the list and in its chain with the table expanded where due; on a failed allocation head, list, chains, counts, statistics and filter are those before the call |
| HashTable.HashAddInOrder | user/src/uthash.h:350-381 | The same for insertion before the first greater element, at any position, with the same exact rollback |
| HashTable.PutInTable | user/src/uthash.h:313-333 | Counting, bucket insertion, filter update, or on a failed expansion the undoing of all of it |
| HashTable.RollbackBkt | user/src/uthash.h:138-146 | The bucket counts the rejected element once more and its chain links are cleared, as the deletion that follows expects |
| HashTable.UndoLinks | user/src/uthash.h:138-146 | With that deletion the rejected element is unlinked from the list, at whatever position it stands, and every count is as before |
| HashTable.MakeTable | user/src/uthash.h:212-242 | A new table is empty, or on a failed allocation there is none |
| HashBuckets.AddToBkt | user/src/uthash.h:767-786 | The element goes to the front of its chain; the bucket expands the table exactly when its count reaches (expand_mult + 1) * 10 and expansion is on |
| HashBuckets.DelInBkt | user/src/uthash.h:789-802 | Exactly one element leaves the chain, the links close over it and the count goes down by one |
| HashBuckets.ExpandBuckets | user/src/uthash.h:833-883 | The moves of the two nested loops and the policy compute the value Expand |
| HashLists.AppendList | user/src/uthash.h:278-284 | The element becomes the last of the list and the tail |
| HashLists.FindPlace | user/src/uthash.h:286-293 | The loop finds the first position whose element is greater |
| HashLists.InsertInOrder | user/src/uthash.h:356-374 | The element is linked in at that position, head and tail updated |
| HashTable.HashFind | user/src/uthash.h:153-163 | Filter test and chain walk return the value Find |
| HashTable.HashDelete | user/src/uthash.h:450-477 | The element leaves list, chain and counts; deleting the last one leaves no table |
| HashUse.HashReplace | user/src/uthash.h:254-262 | The element found under the key is deleted first and reported, then the new one is added; the table stays within the caller's memory and fresh memory |
| HashUse.HashReplaceInOrder | user/src/uthash.h:244-252 | The same with insertion in order |
| HashUse.IterDelete | user/src/uthash.h:1060-1062 | Iterating and deleting whatever a predicate selects visits every element once in order, leaves the others in order, keeps what the table holds of them, and stays within the caller's memory |
| HashHeapRuns.PerformAll | user/src/uthash.h:244-477 | Any legal run of adds, ordered adds, replaces, deletes, sorts and clears on the heap, whatever allocations fail, ends with the table that the run of values ends with |
| HashHeapRuns.Perform | user/src/uthash.h:244-477 | The same for one operation, with what the caller may work on afterwards |
| HashFsck.Fsck | user/src/uthash.h:516-563 | On any heap whose walks end, the authors' integrity check passes exactly when the back links mirror the forward links in every chain and in the list, every bucket counts its chain, and num_items counts both structures |
| HashFsck.InvariantPasses | user/src/uthash.h:516-563 | Every table with the invariant passes it |
| HashInvariant.AddKeepsInv | user/src/uthash.h:313-333 | An add at any position keeps the invariant, whatever was allocated |
| HashInvariant.DeleteKeepsInv | user/src/uthash.h:450-477 | A delete keeps the invariant |
| HashInvariant.FindIsScan | user/src/uthash.h:745-764 | With unique keys HASH_FIND returns what a scan of the list by key returns |
| HashRuns.StepKeepsInv | user/src/uthash.h:516-563 | Every legal operation keeps the invariant: both structures hold exactly the same elements once each, each in the bucket of its hash value, 2^log2 buckets, the filter covering all |
| HashRuns.RunFindIsScan | user/src/uthash.h:153-173 | After any run of adds, ordered adds, replaces, deletes, sorts and clears with unique keys, any hash function, any allocation failures, with or without a filter, HASH_FIND is the linear scan by key |
| HashRuns.RunKeepsKeyed | user/src/uthash.h:254-269 | Such runs keep the keys unique |
| HashRuns.StepFinds | user/src/uthash.h:254-269 | The effect of every operation on every lookup under unique keys: the added key is found, the deleted one is not, a replace without memory loses its key, all others are as before |
| HashCases.ReplaceLosesKey | user/src/uthash.h:254-262 | From the empty table: a run after which a replace without memory has lost its key |
| HashCases.TenthAddTurnsLookup | user/src/uthash.h:767-786 | From the empty table: ten adds under one key, during which the lookup returns the latest item up to the ninth and the first item after the tenth |
| HashPolicy.ReplaceOutOfMemory | user/src/uthash.h:254-262 | While no ideal length has reached ten, a replace of a present key runs out of memory exactly when it empties the table and there is none for a new one |
| HashLookup.ExpandKeepsFind | user/src/uthash.h:833-883 | An expansion leaves a lookup as it is exactly when no two elements share the key and hash value looked up |
| HashLookup.FindAfterExpand | user/src/uthash.h:849-864 | After an expansion HASH_FIND returns the last match of the old chain |
| HashLookup.ExpandKeepsKeyedFinds | user/src/uthash.h:833-883 | With unique keys every lookup is the same after an expansion |
| HashExpansion.ExpandIsSplit | user/src/uthash.h:846-865 | Moving the items one by one equals splitting every chain by its new bucket |
| HashExpansion.SplitChainsShare | user/src/uthash.h:849-864 | Each old chain i is shared out exactly between the new buckets i and i + num_buckets |
| HashExpansion.SplitKeepsChainsInv | user/src/uthash.h:849-864 | After the split every element is in the bucket of its hash value among twice as many |
| HashExpansion.ExpandForm | user/src/uthash.h:833-883 | All of an expansion: list, items and filter unchanged, split chains, statistics, and the policy counters |
| HashExpansion.IdealIsCeiling | user/src/uthash.h:846-848 | With 2^log2 buckets the shift and the mask compute the number of items over the number of buckets, rounded up |
| HashExpansion.MultExact | user/src/uthash.h:855-860 | The exact expand_mult of a new bucket in terms of its count and the ideal length |
| HashExpansion.MultCovers | user/src/uthash.h:855-860 | No new bucket holds more than expand_mult + 1 ideal lengths |
| HashPolicy.CountsAddUp | user/src/uthash.h:516-563 | The bucket counts add up to the number of items |
| HashPolicy.RunBounded | user/src/uthash.h:767-786 | After any run, failed allocations included, while expansion is on no chain reaches expand_mult + 1 times the threshold (or the last ideal length plus one, when longer) |
| HashPolicy.ChainsStayShort | user/src/uthash.h:767-786 | The same for runs from the empty table, with the threshold of ten written out |
| HashPolicy.BucketsOfRun | user/src/uthash.h:129-131 | A table has 32 buckets, doubled once per expansion |
| HashPolicy.RunRecorded | user/src/uthash.h:867-880 | In every reachable table the buckets have doubled once per expansion, and expansion is off exactly when the last two were ineffective, which are then the last of the table's life |
| HashPolicy.InOrderIsSort | user/src/uthash.h:350-381 | Adding all with the ordered add gives the list that appending all and then sorting gives |
| HashPolicy.RunItems | user/src/uthash.h:278-293 | Without allocation failures the list after any run of adds is the fold of appends and ordered insertions, untouched by expansions |
| BloomFilter.Bloom.Add | user/src/uthash.h:195-199 | One bit is set, no other changes |
| BloomFilter.Bloom.Test | user/src/uthash.h:196-202 | True exactly when the bit of the hash value is set |
| BloomFilter.BitIsShift | user/src/uthash.h:195-196 | The bit of an index within its byte is 1 shifted left by it |
| BloomFilter.SetBitOfFilter | user/src/uthash.h:195 | Setting a bit of a byte adds that bit and no other to the set of the whole filter |
| HashBits.LowBitsIsRemainder | user/src/uthash.h:430-433 | Masking a hash value by 2^k - 1 is its remainder by 2^k |
| JenkinsHash.MixIsBijection | user/src/uthash.h:634-645 | The nine steps of HASH_JEN_MIX have an inverse on triples of 32-bit words, on both sides |
| JenkinsCode.HashJen | user/src/uthash.h:647-686 | The loop over blocks and the fall-through switch compute JenCode, a transcription of these lines with every constant, shift and byte position written out |
| JenkinsCode.JenStateIsCode | user/src/uthash.h:634-686 | The state that the other statements speak of is what that transcription computes |
| JenkinsCode.MixIsCode | user/src/uthash.h:634-645 | The same for the nine statements of HASH_JEN_MIX |
| Word32.XorIsBitwise | user/src/uthash.h:634-645 | The exclusive or of words is that of each of their bits |
| JenkinsHash.JenStateSeparates | user/src/uthash.h:647-686 | Keys of one length that differ only within one 12-byte block or the tail have equal states exactly when they are equal |
| JenkinsHash.TailsSeparate | user/src/uthash.h:670-686 | Keys of whatever lengths that have as many whole blocks and agree on them have equal states exactly when they are equal, since the length is in the state |
| JenkinsHash.ShortKeysDiffer | user/src/uthash.h:670-686 | In particular all keys of up to eleven bytes |
| JenkinsHash.MacStatesDiffer | user/src/uthash.h:647-686 | Distinct 6-byte addresses have distinct states |
| FoldHash.HashFnv | user/src/uthash.h:608-617 | The loop computes the fold of the FNV step |
| FoldHash.HashBer | user/src/uthash.h:583-591 | The loop computes the fold of the Bernstein step |
| FoldHash.FnvIs | user/src/uthash.h:608-617 | HASH_FNV starts at 2166136261, and each byte is xored in before a multiplication by 16777619 modulo 2^32 |
| FoldHash.BerIs | user/src/uthash.h:583-591 | HASH_BER starts at 0, and each byte is added to 33 times the hash modulo 2^32 |
| FoldHash.OneByteChangesTheHash | user/src/uthash.h:583-617 | With either, keys of one length that differ in exactly one byte never collide |
| InfoElements.RoundTrip | user/src/ie_iter.c:47-71 | Decoding an encoded list gives the list back, whatever lies beyond it, exactly unless the list is one element without a body |
| InfoElements.BodyRoundTrip | user/src/ie_iter.c:29-71 | Behind the fixed parameters of any subtype, a list comes back from the body, whatever lies beyond it, exactly when the body has at most 255 bytes and the list is not one element without a body |
| FrameBodies.BeaconBody | user/src/ft_parser.c:83-85 | Beacons and probe responses: behind a timestamp of 8 bytes, an interval of 2 and capabilities of 2, the elements come back exactly when they take at most 243 bytes and are not one element without a body |
| FrameBodies.TimingBody | user/src/ft_parser.c:83-85 | Timing advertisements: behind 12 bytes |
| FrameBodies.ActionBody | user/src/ft_parser.c:86-87 | Action frames: behind category and code |
| FrameBodies.ReasonBody | user/src/ft_parser.c:88-89 | Disassociation and deauthentication: behind a reason of 2 bytes |
| FrameBodies.BareBody | user/src/ft_parser.c:90-98 | Probe requests, ATIM and unknown subtypes: from the start |
| FrameBodies.AssociationRequestBody | user/src/ft_parser.c:92 | Association requests: behind two fields of 2 bytes |
| FrameBodies.ThreeFieldBody | user/src/ft_parser.c:93-96 | Authentication, reassociation requests and the responses: behind three fields of 2 bytes |
| FrameBodies.LongBody | user/src/ie_iter.c:29-39 | Of a body of 256 bytes or more the first remainder by 256 is decoded |
| InfoElements.DecodeIsShort | user/src/ie_iter.c:47-71 | On arbitrary bytes there are at most half as many elements, rounded up |
| InfoElements.ElementsCover | user/src/ie_iter.c:58-67 | On arbitrary bytes no byte is skipped: the bytes are a prefix of the encoding of what is decoded |
| InfoElements.ReadsStayInside | user/src/ie_iter.c:15-71 | All reads of the iterator and of the SSID fold stay inside the copied bytes exactly when no header straddles their end and no SSID element runs over it, a condition on the bytes alone |
| InfoElements.ReadsThatPassTheEnd | user/src/ie_iter.c:15-71 | Inputs of three bytes from which seven and four are read |
| InfoElements.WellFormedFits | user/src/ie_iter.c:15-71 | Well-formed lists meet that condition, and some lists that are cut short meet it too |
| InfoElements.BeyondIsIrrelevant | user/src/ie_iter.c:47-71 | What is decoded is independent of what lies beyond the end exactly when the bytes are a well-formed list |
| IeIterator.Iterator.Next | user/src/ie_iter.c:47-71 | One call yields the next decoded element or, when there is none, stops, for good; it reads the two bytes of a header and no more |
| IeIterator.NewIterator | user/src/ie_iter.c:29-45 | The iterator yields the decoding of the body with its length narrowed to eight bits, or there is none |
| IeIterator.IsPrintable | user/src/ie_iter.c:5-13 | True exactly when every byte is between 32 and 126 |
| SsidScan.IterPacketIes | user/src/ie_iter.c:15-28 | The loop folds the decoded elements into the record, changes nothing else, and reads exactly as far as ReadsEnd says |
| SsidScan.SetNamesRenames | user/src/ie_iter.c:15-28 | That fold replaces the name exactly when the new bytes are printable and not a prefix of it, although the code compares with the whole buffer |
| SsidScan.NameAfterElement | user/src/ie_iter.c:18-25 | One element: it becomes the name exactly if it is element 0, all its bytes are from 32 to 126, and the name does not start with them |
| SsidScan.NamesStayGood | user/src/ie_iter.c:15-28 | A name of 1 to 32 printable bytes stays one |
| ChannelHop.FrequenciesDiffer | user/src/channel_hop.c:15-20 | No two channels have the same frequency |
| ChannelHop.FrequenciesByBand | user/src/channel_hop.c:15-20 | 5 MHz steps from 2412 for channels 1 to 13 and from 5180 for 36 to 177, 2484 for 14, -1 otherwise |
| ChannelHop.HoppedFit | user/src/channel_hop.c:8-20 | A list of distinct hopped frequencies has at most seven entries, and with seven it has them all |
| ChannelHop.RoundRobin | user/src/channel_hop.c:26-30 | Any seven calls of next_channel in a row set every channel once |
| ChannelHop.Hopper.NextChannel | user/src/channel_hop.c:26-30 | Each call sets the next channel of the table, cyclically |
| ApTracker.Ctx.GetAp | user/src/ctx.c:30-38 | The scan finds the first tracked slot with the address, or none |
| ApTracker.Ctx.HandleFrameInfo | user/src/main.c:180-244 | A frame changes the whole state as FrameStep says |
| ApTracker.Ctx.EnrolAp | user/src/main.c:211-220 | A new record takes the next slot, leaving its stale counters and frequencies |
| ApTracker.Ctx.HearBeacon | user/src/main.c:224-231 | Time, count, and the frequency appended when the list lacks it |
| ApTracker.Ctx.SweepAps | user/src/main.c:126-136 | The nested loops end although the index wraps at 0, and leave the unexpired records in order, copies of the last record in the slots given up, and the cursor at its minimum with the new count |
| ApTracker.Ctx.PressKey | user/src/main.c:82-113 | Each key changes the cursor, eight bits wide and compared without sign, or the views |
| TrackerKeys.UpPresses | user/src/main.c:86-88 | n presses of Up end n above, or at 0 |
| TrackerKeys.DownPresses | user/src/main.c:89-91 | n presses of Down end n below, or where the window reaches the last access point, if the cursor was not beyond that |
| TrackerKeys.UpUndoesDown | user/src/main.c:86-91 | Up restores the state before Down exactly when Down moved to the next access point, or did not move at the top |
| TrackerKeys.BottomShowsLast | user/src/main.c:95-98 | Bottom leaves cursor plus height equal to the count where that fits in eight bits, and 0 when all fit in the window |
| TrackerKeys.OpenAndClose | user/src/main.c:100-105 | The view of the record at the cursor is set, and nothing else |
| TrackerKeys.OpenAllAndCloseAll | user/src/main.c:106-115 | The views of the tracked records are set, and nothing else |
| ApTracker.Ctx.DrawPacketWin | user/src/ui.c:52-58 | The slot each row reads |
| TrackerRuns.LookupIsByKey | user/src/ctx.c:30-38 | With unique addresses the scan returns slot i exactly when slot i has the address |
| TrackerRuns.StepKeepsInv | user/src/main.c:80-136 | Frames, sweeps and keys keep: unique addresses, cursor not past the count, distinct frequencies in every slot, names of 1 to 32 printable bytes on tracked ones |
| TrackerRuns.UnexpiredAreTheFresh | user/src/main.c:126-136 | A record is left by the sweep exactly when it was seen within 30 seconds |
| TrackerRuns.UnexpiredInOrder | user/src/main.c:126-136 | The records left stand at increasing positions of the old list, namely those seen within 30 seconds |
| TrackerRuns.UnexpiredStayUnique | user/src/main.c:126-136 | Addresses stay unique through compaction |
| TrackerRuns.SweepSlots | user/src/main.c:126-136 | Tracked records are the filtered ones, every slot given up holds the last tracked record, all others are untouched, and the cursor is the lesser of itself and the new count |
| TrackerRuns.FreqsGrow | user/src/main.c:227-231 | The list of frequencies stays distinct, and grows exactly by a frequency it lacks |
| TrackerTable.FrameOnTable | user/src/main.c:180-244 | A frame changes each tracked record by its address alone, adds one exactly for an unknown announcing address, and leaves all other slots |
| TrackerTable.FrameOnMacs | user/src/main.c:180-244 | The addresses stay distinct, and a frame appends that of an unknown announcer and changes no other |
| TrackerTable.SlotOfIsByKey | user/src/main.c:191-213 | The slot an announcement writes to is the one with its address, or the next free one exactly when none has it |
| TrackerHistory.RunNames | user/src/main.c:211-222 | After any run each tracked address bears the fold, from "<hidden>", of the SSID elements in its announcements since it was last added |
| TrackerCases.FirstBeaconNames | user/src/main.c:211-222 | From the start: a beacon whose one SSID element is printable and not the start of "<hidden>" gives its bytes as the name |
| TrackerCases.FirstBeaconHides | user/src/main.c:214-217 | From the start: a beacon without elements gives "<hidden>" |
| TrackerCounts.RunCounts | user/src/main.c:193-226 | After any run rx, tx, retries and beacons of a tracked address are, modulo 2^32, what its slot held when it was added plus the frames since that were received through it, sent by it, repeated, and its beacons; its colour is the next in turn when it was added |
| TrackerCounts.RunScalars | user/src/main.c:187-219 | After any run the packet count is the number of frames modulo 2^32, and the next colour the number of addresses added modulo the colours |
| TrackerCounts.RunFreqs | user/src/main.c:227-231 | After any run a tracked address lists what its slot held when it was added and then the frequencies of its beacons, each once, in order |
| TrackerCounters.RetriesAreBounded | user/src/main.c:193-207 | Retries are at most the frames counted in both directions, in every slot of every run of n frames, exactly for n up to 2^32 |
| TrackerCounters.RunCounters | user/src/main.c:193-207 | In those runs no count of sent or received frames exceeds the frames after the first |
| TrackerHistory.RoomNeverRunsOut | user/src/main.c:227-231 | While beacons come in on hopped channels, every append to a list of seven frequencies fits, in every slot of every run, however often it was reused |
| TrackerHistory.NewcomerInherits | user/src/main.c:211-231 | What a new record takes over from the slot's last tenant |
| TrackerHistory.ProbedNewcomerExpires | user/src/main.c:126-136 | A record made by a probe response survives a sweep exactly when the stale time in its slot would |
| TrackerTimes.RunTimes | user/src/main.c:193-226 | After any run the time of a tracked address is that of the last frame it sent through the distribution system or of its last beacon since it was added, or what it found in its slot |
| TrackerTimes.RunThenSweep | user/src/main.c:126-136 | After any run a sweep drops a tracked address exactly when that time is more than 30 seconds old |
| TrackerCursor.CursorAfterEvent | user/src/main.c:80-136 | After any event the cursor is on a tracked access point, or there is none, exactly when the event puts it there, or it was there and the event is not a sweep that leaves some but not more than the cursor |
| TrackerCursor.CursorStays | user/src/main.c:80-136 | From a tracked access point only such a sweep takes the cursor away |
| TrackerCursor.CursorOverRun | user/src/main.c:80-136 | Over a run the cursor is always on a tracked access point exactly when no sweep of the run strands it |
| TrackerCursor.CursorHistory | user/src/main.c:80-136 | Where the cursor is after any run, from its events alone |
| TrackerCases.ProbedAloneIsLost | user/src/main.c:126-136 | From the start: an access point that a probe response announces is gone after the first sweep |
| TrackerCases.CursorPastTheEnd | user/src/main.c:126-136 | From the start: a run after which the cursor equals the number of access points, which is not 0 |
| PacketRing.RowsShowLatest | user/src/main.c:183-243 | After any run rows 0 to 18 read the latest kept packets, newest first, and row 19 the last skipped one or the twentieth latest |
| PacketRing.WindowShowsLatest | user/src/ui.c:52-58 | What the window shows after any run: row r below 19 the r-th latest kept packet, row 19 the scratch slot, and nothing where there is none or all of it is zero |
| PacketRing.RowsReadEverySlotOnce | user/src/ui.c:53-55 | The twenty computed indices are the twenty slots, each once |
| PacketRing.FrameInRing | user/src/main.c:183-243 | A frame writes its slot, and moves the index exactly when it is kept |
| PacketRing.FrameInRingByNumber | user/src/main.c:183-243 | The same with the frame types written out: headers and, for action frames 13 and 14, the first two bytes; beacons 8 and probe requests 4 do not move the index |

## Left out

- HashFsck.Fsck: asks that the forward links end, since on a cycle the C walks do not; it reports instead of leaving the program at the first finding.
- HashTable.HashAdd: counts, sizes and log2_num_buckets are unbounded; the wrap of the 32-bit fields beyond 2^30 buckets is not modelled.
- HashTable.HashFind: keys are compared as byte sequences; key pointers and lengths are not separate.
- HashRuns.RunFindIsScan: stated under unique keys; `HashLookup.ExpandKeepsFind` says exactly when an expansion changes a lookup without them.
- SsidScan.IterPacketIes: asks that SSID elements have at most 32 bytes (section 9.4.2.2 of IEEE Std 802.11-2020), since with longer ones the code compares and copies past the end of the name; the buffer has a 33rd byte for the terminator.
- ApTracker.Ctx.HandleFrameInfo: asks for a free slot when an address is added and for room in the list of frequencies; the code checks neither and writes past the array without them.
- ApTracker.Ctx.EnrolAp: asks for the free slot.
- ApTracker.Ctx.HearBeacon: asks for the room; `TrackerHistory.RoomNeverRunsOut` shows when it is always there.
- InfoElements.BodyRoundTrip: speaks of all continuations at once; a body of 256 bytes or more can still decode to its list for a particular one.
- HashUse.HashClear: that the memory of the table, its buckets and its filter is released is not modelled.
- HASH_SELECT, which does not keep the destination's tail, and HASH_OVERHEAD.
- HASH_SAX, HASH_OAT and HASH_SFH, HASH_EMIT_KEYS and the NO_DECLTYPE variants; HASH_FNV, HASH_BER and HASH_JEN are modelled on keys shorter than 2^32 bytes.
- Offset arithmetic between an element and its handle, memory release, and the fatal out-of-memory exit.
- Comparison functions and predicates that change the table or depend on anything but the elements.
- Netlink, nl80211, ncurses drawing and colours, radiotap and header parsing, the kernel module: foreign calls without visible semantics.
- The action-frame tables and the enum-to-string functions, each settled by reading one branch.
- The pause, hopping and quit keys and the hop timer of main().
