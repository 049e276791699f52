# A verified model of yangkv

yangkv is a small log-structured key-value store: a key is logged, queued, inserted into a sorted
list, frozen with that list, merged into a level-0 table file and listed by a version. This project
models that path and the codecs under it, and proves what they promise.

Check it with `dafny verify dfyconfig.toml`.

## What is modelled

| file | contents |
|---|---|
| `Sequences.dfy`, `Bytes.dfy`, `Coding.dfy`, `Comparator.dfy` | runs laid end to end, byte order, varints, fixed-width numbers, memory entries, key shortening |
| `Block.dfy`, `Format.dfy` | prefix-compressed blocks with restarts, handles, footer, raw blocks |
| `Env.dfy` | the buffered file over short, interrupted and failing writes |
| `TableReader.dfy`, `TableBuilder.dfy` | the table builder and the reader that its format calls for |
| `LogFile.dfy`, `MessageQueue.dfy`, `SkipList.dfy`, `WriterThread.dfy` | log, ring, sorted list, the writer's drain loop |
| `Compaction.dfy` | merging frozen lists and writing them as a table |
| `Pipeline.dfy`, `PipelineProofs.dfy`, `PipelineTheorems.dfy` | all threads together, as interleaved steps over one state |
| `PipelineRuns.dfy` | concrete runs from the start that lose an entry, undo a deletion, overfill a version; what a full version holds |
| `VersionRing.dfy` | the ring of reference-counted versions, their shared files and their frozen lists |
| `VersionEdit.dfy`, `VersionBuilder.dfy`, `VersionSearch.dfy` | edits and their byte form, batches of edits, looking a key up in a version |
| `FilterBlock.dfy` | the filter block's builder and reader |
| `WireFormat.dfy` | the bytes that particular values become, so that no format can change on both sides at once |

Code that updates state is a class or a loop here too; its methods are tied to functions and
predicates on values, and the theorems are about those. The reader of whole tables
(`TableReader.ReadTable`, `TableReader.Search`) does not exist in the repository, which stops at
`Footer::DecodeFrom`, `ReadBlock` and the `Block` constructor; it is written from the format and calls
models of those three.

## Where the code does not do what it is for

Each item names the failing input or run, and the exact condition under which the code is right.

- `BuildTable` records the file size right after `Finish`, while the end of the table is still in the
  buffer, and returns OK whatever Sync then does. The file on disk is the table if and only if the write(2)
  calls of Sync get the buffer out, which is when its length is the recorded size; otherwise it is a proper
  prefix of the table under the table's full size (`Compaction.BuildTable`). At every state compaction can
  start from, with keys of at most 400 bytes, a failing first write of Sync leaves data blocks only, and they
  are no table (`Compaction.SyncFailureIsSilent`; `PipelineRuns.ReachFullVersion` is a run to such a state).
  If the very first write of the builder fails, an empty file of size 0 is installed.
- `VersionEdit::DecodeFrom` allocates one metadata record for all new files, so an edit with several
  different new files decodes, with status OK, to several copies of the last one
  (`VersionEdits.TwoNewFilesCollapse`). The round trip holds if and only if all new files are equal
  (`VersionEdits.RoundTripExactly`); compaction writes one.
- Installing a version drops every list frozen after the merge began: a run from the start whose last step
  loses the last entry pushed under a key is `PipelineRuns.SwapLosesAnEntry`. In every reachable state, also
  after earlier losses, a swap goes unnoticed if and only if every key of those lists has been pushed again and
  is still queued or active (`PipelineTheorems.SwapIsInvisibleExactly`), and a lookup finds the last push of its
  key if and only if no swap has dropped that entry (`PipelineTheorems.LookupIsExact`). The log still has it:
  `PipelineTheorems.ReplayRecovers` holds after every run.
- A table row keeps no deletion mark, so compacting a tombstone makes the key present again: a run from the
  start that does so is `PipelineRuns.SwapUndoesADeletion`; `PipelineTheorems.SwapKeepsVisibleExactly` and
  `PipelineTheorems.DeletionsLiveInMemory` give the exact conditions. "Present" is what a reader of memory
  and then of the tables sees; the repository itself collects the table files of a lookup and opens none
  (main/versionset.cpp:92-95).
- Waiting under an `if` lets woken writers append without looking again. A run from the start reaches 13
  frozen lists (`PipelineRuns.ThirteenIsReached`), none reaches more (`PipelineTheorems.ListBound`), and a
  run stays within the limit of ten if and only if every list is frozen into a version with room
  (`PipelineRuns.StaysWithinExactly`).
- Replaying old logs pushes into a ring that no thread drains yet: the constructor returns if and only if
  the logs hold at most 40 records together (`MessageQueues.MessageQueue.ReplayLogs`); a log of 41 is
  `MessageQueues.ReplayHangs`.
- The queue search tests the sequence number the wrong way round: it finds the newest entry of a key if and
  only if that entry is numbered at least the number asked for, and a reader asks with a number no entry has
  reached (`Pipeline.SearchQueueExactly`, `Pipeline.QueuedEntriesAreHidden`).
- Adding a file under a number that an earlier edit of the batch deleted brings the old file back
  (`VersionBuilding.ReusedNumberResurrects`); `VersionBuilding.AddIsExact` gives the exact guard.
- `Version::apply` does what an edit says if and only if the edit deletes no listed file and adds files to
  level 0 only (`VersionRing.ApplyIsExact`); `VersionRing.ApplyKeepsADeletedFile` is an edit it gets wrong.
- `VersionSet`'s constructor reads `current_` before anything has set it; the model takes null.

## Model

| member | source | states |
|---|---|---|
| Bytes.CompareIsLexicographic | utils/slice.h:67-75 | the three-way comparison is negative, zero or positive exactly for lexicographically smaller, equal or greater byte strings |
| Comparator.FindShortestSeparator | utils/comparator.h:14-36 | for start < limit the result lies in [start, limit) and is no longer than start; it is a truncation with its last byte incremented exactly when the first differing bytes leave a gap |
| Comparator.FindShortSuccessor | utils/comparator.h:38-50 | never below the key, never longer, unchanged exactly for a run of 0xff, otherwise cut after its first byte below 0xff, that byte incremented |
| Comparator.ScanCommonPrefix | table/block_builder.cpp:54-57 | the scanning loop computes the longest common prefix |
| Coding.Varint32RoundTrip | utils/dbformat.cpp:173-183 | decoding inverts encoding for every 32-bit number and leaves any suffix untouched |
| Coding.Varint64RoundTrip | utils/dbformat.cpp:202-212 | the same for every 64-bit number |
| Coding.EncodeVarint32 | utils/dbformat.cpp:89-115 | the unrolled encoder writes exactly the base-128 groups, and nothing outside them |
| Coding.EncodeVarint64 | utils/dbformat.cpp:123-132 | the looping encoder writes exactly the same groups |
| Coding.VarintLength | utils/dbformat.cpp:145-152 | the length computed is the exact encoded length |
| Coding.GetVarint32Ptr | utils/dbformat.cpp:154-171 | the shift-and-or loop with its one-byte fast path, on any input, equals the arithmetic decoder: at most five groups, truncated to 32 bits |
| Coding.GetVarint64Ptr | utils/dbformat.cpp:185-200 | the same with ten groups and 64 bits |
| Coding.Fixed32RoundTrip | utils/dbformat.h:89-101 | four-byte numbers come back |
| Coding.Fixed64RoundTrip | utils/dbformat.h:103-114 | eight-byte numbers come back |
| Coding.LengthPrefixedRoundTrip | utils/dbformat.cpp:224-234 | a length-prefixed slice comes back and the suffix is untouched |
| Coding.EncodeMemEntry | utils/dbformat.cpp:19-38 | the buffer allocated is filled exactly, whatever the two bytes copied past key and value are |
| Coding.MemEntryRoundTrip | utils/dbformat.cpp:5-17 | decoding gives the entry back for any such two bytes |
| WireFormat.VarintBytes | utils/dbformat.cpp:89-132 | the bytes of five numbers: low groups first, the top bit on all but the last |
| WireFormat.FixedBytes | utils/dbformat.cpp:62-87 | the low byte comes first |
| WireFormat.MemEntryLayout | utils/dbformat.cpp:19-38 | the fourteen bytes of one entry |
| Env.WritableFile.WriteUnbuffered | utils/env.cpp:158-171 | under any script of short, empty, interrupted and failing writes it ends; it is OK exactly if the script lets all bytes out, and an error leaves a proper prefix |
| Env.WritableFile.Append | utils/env.cpp:92-119 | bytes on file followed by the buffer equal everything appended before plus the new data; data that fits the buffer stays there, and what remains after a flush is buffered or written directly by its size; a failure leaves a prefix |
| Env.WritableFile.AppendSize | utils/env.cpp:87-91 | eight bytes join the buffer; the caller leaves room for them |
| Env.WritableFile.Flush | utils/env.cpp:131-133 | everything accepted reaches the file, or a proper prefix of it and an error |
| Env.WritableFile.Sync | utils/env.cpp:135-156 | OK exactly if the write calls let the buffer out and fdatasync succeeds; after a failed write the file keeps a proper prefix and the buffer is empty |
| Env.WritableFile.Close | utils/env.cpp:121-129 | flushes, then closes whatever the flush says |
| BlockFormat.OpenBlockOfBlockBytes | table/block.cpp:7-27 | the constructor recovers the restart count, the array's offset and every restart offset |
| BlockFormat.OpenBlockExactly | table/block.cpp:12-27 | it accepts exactly the contents that hold the array their last word promises |
| BlockFormat.EntryRoundTrip | table/block_builder.cpp:63-72 | an entry decodes after any predecessor that has the shared prefix, leaving the suffix |
| BlockFormat.DecodeEntriesAppend | table/block_builder.cpp:45-79 | decoding runs through a decodable prefix and carries its last key into what follows |
| BlockFormat.AppendShared | table/block_builder.cpp:65-78 | appending an entry with sound sharing extends what the whole buffer and what every restart point decode to |
| BlockFormat.FinishedBlock | table/block_builder.cpp:35-43 | a finished block decodes to its entries; restart j, with nothing shared, decodes to the entries from j * interval on; the restart count is the number of groups |
| BlockBuilding.BlockBuilder.Add | table/block_builder.cpp:45-79 | appends the pair, sharing the whole common prefix with the last key except at a restart, which comes exactly when the interval is reached; keeps the invariant that buffer and restarts encode the entries; the original's assertions hold; the size grows by at most key + value + 19 |
| BlockBuilding.BlockBuilder.Finish | table/block_builder.cpp:35-43 | the bytes decode to the entries added since the last reset, from every restart point; there is one restart for every full or last short run of the interval; the size is the estimate |
| BlockBuilding.BlockBuilder.Reset | table/block_builder.cpp:20-27 | back to an empty block |
| WireFormat.BlockEntryLayout | table/block_builder.cpp:65-72 | the bytes of one entry: three lengths, the key's end, the value |
| WireFormat.BlockLayout | table/block_builder.cpp:35-43 | the bytes of one block: data, restart offsets, their count |
| Format.HandleRoundTrip | table/format.cpp:6-21 | a handle whose fields are set comes back, with any suffix untouched |
| Format.EncodeFooter | table/format.cpp:23-32 | into an empty destination, exactly 48 bytes |
| Format.FooterRoundTrip | table/format.cpp:34-54 | both handles come back from those bytes |
| Format.BlockAtRawBlock | table/format.cpp:56-103 | a raw block anywhere in a file is read and decoded through its handle |
| Format.ReadBlockExactly | table/format.cpp:56-103 | exactly the blocks that lie whole in the file, with their trailer and under type 0, are read |
| WireFormat.RawBlockLayout | table/table_builder.cpp:158-168 | the bytes of one raw block |
| WireFormat.FooterLayout | table/format.cpp:23-32 | the 48 bytes of one footer |
| TableReader.SeparatorBelow | table/table_builder.cpp:94-101 | an index key lies below every key of every later block |
| TableReader.SeparatorsIncrease | table/table_builder.cpp:96-99 | separators strictly increase, so the index block's ordering assertion holds |
| TableReader.BlockOfKey | table/table_builder.cpp:94-101 | only the block under the first separator at or above a key can hold it |
| TableReader.SearchOneBlock | table/table_builder.cpp:212-217 | searching that one block equals looking up in all pairs |
| TableReader.TilesAppend | table/table_builder.cpp:152-173 | a block appended with its trailer extends the tiling: handles stay adjacent, and every earlier block still decodes |
| TableReader.ReadsBack | table/table_builder.cpp:210-234 | a file whose footer leads to an index listing and separating its blocks reads as their concatenation, by scan and by search |
| TableProgress.SettleAndAdd | table/table_builder.cpp:94-109 | the key after a block boundary settles the owed index entry under a separator and keeps the whole invariant |
| TableProgress.SeparatorIncreases | table/table_builder.cpp:96-99 | any key covering the last block exceeds all earlier index keys |
| TableProgress.FlushStep | table/table_builder.cpp:116-132 | writing the open block out keeps the invariant, the sizes and the pairs added |
| TableProgress.SettleStep | table/table_builder.cpp:94-109 | the same for settling, with sizes |
| TableProgress.FooterFindsIndex | table/table_builder.cpp:193-233 | the last 48 bytes of the finished file lead to the index |
| TableProgress.FooterFinds | table/table_builder.cpp:223-233 | the footer's two handles read as exactly the metaindex and the index block's bytes |
| TableProgress.ShapedSettle | table/table_builder.cpp:96-99 | the index key settled between two blocks is the shortest separator of the keys on its two sides |
| TableProgress.ShapedFlush | table/table_builder.cpp:134-150 | every block written so far keeps, under its handle, a restart for every run of the interval |
| TableProgress.FinishLaid | table/table_builder.cpp:193-233 | the finished file has an empty metaindex block, an index block with a restart per entry, index keys as short as the comparator makes them, and data blocks with restarts at the interval |
| TableProgress.FinishedTable | table/table_builder.cpp:179-235 | what the builder leaves behind, finished, reads back by scan and by search |
| TableProgress.OwedEntry | table/table_builder.cpp:94-101 | an owed entry has a representable handle and belongs after every index entry |
| TableBuilding.TableBuilder.WriteRawBlock | table/table_builder.cpp:152-173 | contents and a five-byte trailer; the offset advances exactly if both appends succeed |
| TableBuilding.TableBuilder.constructor | table/table_builder.cpp:40-63 | an empty builder with the block size and restart interval asked for; the index block has interval 1 |
| TableBuilding.TableBuilder.WriteBlock | table/table_builder.cpp:134-150 | the block's entries decode from what is written, in full and from each restart at the block's interval; the block is reset |
| TableBuilding.TableBuilder.Flush | table/table_builder.cpp:116-132 | pairs unchanged, the open block written under a handle at the old offset with its estimated size; nothing happens for an empty block or after an error |
| TableBuilding.TableBuilder.Add | table/table_builder.cpp:87-114 | the pairs grow by this one; the block is closed by this call exactly if it reached the block size; nothing happens after an error |
| TableBuilding.TableBuilder.SettleBefore | table/table_builder.cpp:94-101 | the owed entry goes in under the shortest separator of the last key and the coming one |
| TableBuilding.TableBuilder.SettleAtEnd | table/table_builder.cpp:212-217 | the last owed entry goes in under the short successor of the last key |
| TableReader.TrailerIsNoTable | table/format.cpp:34-42 | a file that ends in a block trailer is no table: the zero checksum stands where the footer's magic number must |
| TableBuilding.TableBuilder.Finish | table/table_builder.cpp:179-235 | whole-table round trip: on OK the bytes accepted read, by scan and by search, as exactly the pairs added, with Flush calls anywhere; data blocks tile the file, each with a restart for every run of the constructor's interval and at most max(block size - 1, 8) + 19 + its last key and value long; the footer leads to an empty metaindex block and to an index block with a restart per entry, keyed by the shortest separators and a short successor; OK is certain if no write fails; the footer is then still partly in the buffer, and behind a small index the bytes on disk are exactly the data blocks |
| LogFile.RecordRoundTrip | utils/logreader.cpp:27-36 | a record inside any file is read back and the offset moves just past it |
| LogFile.ReadsSuffix | utils/logreader.cpp:23-36 | reading from record i gives the entries from i on; `end()` holds there exactly when i is past the last |
| LogFile.LogRoundTrip | utils/logwriter.cpp:21-31 | whatever was written is what is read |
| LogFile.TornTail | utils/logreader.cpp:23-36 | after the records up to four stray bytes are passed over; with five to seven the reader uses bytes that are not there |
| WireFormat.LogRecordLayout | utils/logwriter.cpp:24-26 | the bytes of one record: eight of length, then the entry |
| LogFile.LogWriter.AddRecord | utils/logwriter.cpp:21-31 | one more record, on disk when the call returns; the size always goes into an empty buffer |
| LogFile.LogWriter.ReplaysBack | utils/logwriter.cpp:21-31 | the file on disk replays as exactly the entries added |
| MessageQueues.MessageQueue.LogRecord | memory/message_queue.cpp:52-54 | the log gains the entry before the queue does |
| MessageQueues.MessageQueue.Enqueue | memory/message_queue.cpp:55-57 | the ring refines a queue: contents gain the entry at the end |
| MessageQueues.MessageQueue.Pop | memory/message_queue.cpp:60-63 | contents lose their first entry; 0 <= w_ptr - r_ptr <= 40 |
| MessageQueues.MessageQueue.GetFront | memory/message_queue.cpp:65-68 | the oldest queued entry |
| MessageQueues.MessageQueue.Search | memory/message_queue.cpp:78-95 | the loop from the newest slot down finds the newest entry of the key numbered at least the number given |
| MessageQueues.MessageQueue.ReplayLogs | memory/message_queue.cpp:29-41 | the constructor's pushes end with all records queued in order and the highest number known if and only if there are at most 40; otherwise the ring is full of the first 40 and the next push never returns |
| MessageQueues.ReplayHangs | memory/message_queue.cpp:36-40 | with a log of 41 records the constructor does not return |
| SortedMap.PutIsUpdate | memory/skiplist.h:33 | insertion into the sorted run is map update and keeps it sorted |
| SkipLists.SkipList.Insert | memory/skiplist.h:27-34 | the entry replaces what the list held under its key; the id is the first entry's number |
| SkipLists.SkipList.Get | memory/skiplist.h:35-41 | finds a slice exactly for the keys held, and it decodes to the entry |
| SkipLists.SkipList.SizeIsContents | memory/skiplist.h:45-47 | the size is the number of keys held |
| WriterThreads.DrainKeepsHistory | memory/writer.cpp:34-45 | draining loses, reorders and duplicates nothing pushed; it ends with an empty queue and a list below its limit, or waiting with a full list and the room used up |
| WriterThreads.DrainFreezesFullLists | memory/writer.cpp:39-42 | lists are only appended, and each of them has exactly ten keys |
| WriterThreads.DrainIsARun | memory/writer.cpp:34-45 | draining is what a run of the writer's own Insert, Freeze and Block steps reaches, each enabled when it is taken |
| WriterThreads.WriterThread.InsertFrontEntry | memory/writer.cpp:37-38 | ring and list change as the Insert step says |
| WriterThreads.WriterThread.LogEntry | memory/message_queue.cpp:52-54 | log file and queue change as the LogRecord step says |
| WriterThreads.WriterThread.EnqueueEntry | memory/message_queue.cpp:55-57 | the ring changes as the Enqueue step says |
| WriterThreads.WriterThread.DiskRecovers | memory/message_queue.cpp:29-41 | in every reachable state the bytes of the log file on disk read back as the entries accepted, then at most the one in flight; folded, they give each key's last push |
| WriterThreads.WriterThread.FreezeOrWait | main/versionset.cpp:276-285 | a full version makes the writer wait and changes nothing else; otherwise the list goes in and a new one starts |
| WriterThreads.WriterThread.MayInsertMessage | memory/writer.cpp:34-45 | the loop on real objects drains the queue until it is empty or the version is full, and hands over only lists of exactly ten keys |
| WriterThreads.WriterThread.Resume | main/versionset.cpp:281-284 | a woken writer appends its list without looking again and goes on draining, handing over only lists of exactly ten keys |
| Pipeline.ScanListsIsOverlay | main/versionset.cpp:62-79 | scanning newest first finds what overwriting oldest first leaves |
| Pipeline.SearchQueueExactly | memory/message_queue.cpp:78-95 | the search finds the newest entry of the key if and only if that entry is numbered at least the number given |
| Pipeline.SearchQueueIsNewest | memory/message_queue.cpp:78-95 | what the search finds is the newest entry of the key that is numbered high enough; it finds nothing exactly if there is none |
| Pipeline.QueuedEntriesAreHidden | main/yangkvMain.cpp:84-88 | asked with a number above all queued ones, it finds nothing |
| PipelineProofs.FindsLastPush | main/yangkvMain.cpp:67-77 | in every reachable state, queue, active list, frozen lists and tables overlaid give the last entry under the key among those pushed and not dropped by a swap |
| PipelineProofs.MergeAgreesWithScan | main/builder.cpp:14-25 | when keys live only in the lists of the writer their hash selects, the entry the merge of all lists holds for a key is the one the newest-first scan of the owner's lists finds |
| PipelineProofs.FrozenOwned | main/yangkvMain.cpp:69 | in every reachable state keys do live only in their owner's lists |
| PipelineProofs.StepKeepsInv | memory/writer.cpp:34-45 | every step, also a swap that drops lists, keeps the invariant: what a writer still holds is a subsequence of its log, and each layer is the fold of its own stretch of it |
| PipelineProofs.StepKeepsHistory | memory/compacter.cpp:19-34 | what has been pushed grows by the queued entry at Enqueue and by nothing at any other step |
| PipelineProofs.MovesAreInvisible | memory/compacter.cpp:8-33 | insert, freeze, wait, merge and lossless swap change no lookup |
| PipelineTheorems.RunKeepsHistory | memory/compacter.cpp:19-34 | over whole runs the entries pushed are those the steps accepted, in order |
| PipelineTheorems.LookupsSeeLastPush | memory/writer.cpp:34-45 | after every lossless run from the start, each lookup finds the last entry accepted for its key |
| PipelineTheorems.LogCoversHistory | memory/message_queue.cpp:52-58 | after every run, lossy or not, a writer's log is exactly the entries accepted for it, then at most the one logged but not queued |
| PipelineTheorems.ReplayRecovers | memory/message_queue.cpp:29-41 | after every run, folding the log gives each key's last accepted entry, extended by at most the one in flight |
| PipelineTheorems.LookupIsExact | main/versionset.cpp:33-49 | after every run, a lookup finds the last entry accepted for its key if and only if no swap has dropped that entry |
| PipelineTheorems.SwapAtKey | main/versionset.cpp:33-49 | in every reachable state a swap changes the lookup of a key exactly when a late list holds it and nothing newer covers it |
| PipelineTheorems.SwapIsInvisibleExactly | memory/compacter.cpp:26-29 | the swap is invisible to all lookups if and only if the keys of all late lists are covered |
| PipelineRuns.SwapLosesAnEntry | memory/compacter.cpp:22-32 | a run from the start whose last step, a swap, loses an entry: the lookup before it finds the last entry pushed under the key, the one after it finds nothing |
| PipelineRuns.SwapUndoesADeletion | main/builder.cpp:66-70 | a run from the start, without loss, whose last step makes a deleted key visible again |
| PipelineTheorems.DeletionsLiveInMemory | main/builder.cpp:66-70 | for a reader of memory and then of the tables, which the source does not have, a key reads as pushed exactly when its last push is not a deletion that only a table still holds |
| PipelineTheorems.SwapKeepsVisibleExactly | main/builder.cpp:66-70 | for such a reader a lossless swap keeps every value if and only if every tombstone it writes is still covered |
| PipelineTheorems.StepKeepsBound | main/versionset.cpp:276-285 | frozen lists plus woken writers stay within kMaxFrozenList + kMaxWriter - 1, at every step, lossy or not |
| PipelineTheorems.ListBound | main/versionset.cpp:276-285 | so no run ever has more than 13 frozen lists |
| PipelineRuns.ThirteenIsReached | main/versionset.cpp:276-285 | a lossless run from the start reaches 13 frozen lists |
| PipelineRuns.FreezePassesLimit | main/versionset.cpp:280-283 | a freeze takes the version past ten lists exactly when a woken writer finds it full again |
| PipelineRuns.StaysWithinExactly | main/versionset.cpp:276-285 | a run stays within ten lists if and only if every list is frozen into a version with room |
| PipelineRuns.FullVersionMerges | main/builder.cpp:35-41 | whenever a run leaves the version full, the merge has between 10 and 130 keys, so the ends that setMetaData reads are there and BuildTable may be called |
| PipelineRuns.ReachFullVersion | main/versionset.h:27 | a run of one-byte keys that leaves the version full |
| PipelineRuns.TableSizes | memory/compacter.cpp:22 | in every reachable state every level-0 table has between 10 and 130 keys |
| WireFormat.HashValues | utils/hash_helper.cpp:5-11 | three hash values: characters are signed, arithmetic is modulo 2^64 |
| Compaction.MergeIterator.constructor | main/builder.cpp:14-25 | the merged run is strictly sorted and holds exactly the overlay of all lists |
| Compaction.MergeIterator.SetMetaData | main/builder.cpp:35-41 | smallest and largest are the ends of the run, and every key lies between them |
| Compaction.MergeFrozen | main/builder.cpp:64-65 | the recorded ends are merged entries of the lists, and their range covers every row |
| Compaction.RowsOfMerge | main/builder.cpp:66-70 | the table's rows are the merged values, one per key, in strictly increasing order |
| Compaction.AddRows | main/builder.cpp:66-70 | the loop adds every row in order, and no ordering or size assertion of the builder fails |
| Compaction.CloseTable | main/builder.cpp:76-82 | after a builder that succeeded, the file on disk is everything appended if the write calls of Sync get the buffer out, and a proper prefix of it otherwise |
| Compaction.BuildTable | main/builder.cpp:55-85 | the recorded ends are the merged entries of the smallest and the largest key; a nonzero recorded size is the length of a table that reads as the merge of all lists, by scan and by search, restarts every 16 entries and closes each block with the entry that takes it to 4096 bytes; the file on disk is that table exactly if the write calls of Sync get the buffer out, which is when its length is the recorded size, and otherwise a proper prefix, which is no table if the first of them fails behind a small index; if the very first write fails the size is 0 and the file empty; always returns OK |
| Compaction.SyncFailureIsSilent | main/builder.cpp:71-84 | at every state in which compaction starts, a failing first write of Sync leaves OK, the full recorded size and a shorter file; with keys of at most 400 bytes that file is no table |
| VersionRing.RefFiles | main/versionset.cpp:43-47 | every file's count grows by its listings |
| VersionRing.UnrefFiles | main/versionset.cpp:25-31 | every file's count shrinks by its listings, and no unref assertion fails |
| VersionRing.FileCountIsFlatten | main/versionset.cpp:43-47 | a file's listings are its occurrences in all levels together |
| VersionRing.VersionSet.constructor | main/versionset.cpp:250-259 | one empty current version on a well-formed ring |
| VersionRing.VersionSet.Ref | main/versionset.cpp:6-8 | one more holder; ring and counts stay right |
| VersionRing.VersionSet.Unref | main/versionset.cpp:9-31 | one holder less; the version leaves the ring exactly when that was the last, and gives back its frozen lists, then its files; no assertion fails |
| VersionRing.VersionSet.Unlink | main/versionset.cpp:19-20 | the ring stays a circular doubly linked list of exactly the other versions |
| VersionRing.VersionSet.AppendFrozenList | main/versionset.cpp:51-56 | the current version lists the new list, whose one reference it holds; all counts stay right |
| VersionRing.VersionSet.Apply | main/versionset.cpp:33-49 | the new version lists the current files plus the edit's level-0 files and no frozen lists, and references count listings again |
| VersionRing.ApplyIsExact | main/versionset.cpp:33-42 | that is what the edit says if and only if it deletes no listed file and adds files to level 0 only |
| VersionRing.ApplyKeepsADeletedFile | main/versionset.cpp:33-42 | an edit that deletes a listed file leaves it listed |
| VersionRing.VersionSet.AppendVersion | main/versionset.cpp:261-274 | the new version is current and last; the old one goes exactly if nobody else holds it; holders' references are unchanged |
| VersionRing.VersionSet.Link | main/versionset.cpp:270-273 | the ring stays well formed with the version at its end |
| VersionBuilding.BeforeIsOrder | main/versionset.cpp:118-129 | the comparison orders by smallest key, then number, and is total up to equivalence |
| VersionBuilding.InsertKeepsOrder | main/versionset.cpp:199 | set insertion keeps strict order and adds the file unless an equivalent one is there |
| VersionBuilding.AddIsExact | main/versionset.cpp:190-200 | recording an addition adds exactly that file if and only if its number awaits no other file and no equivalent file blocks it |
| VersionBuilding.ReusedNumberResurrects | main/versionset.cpp:190-200 | deleting a number and adding a new file under it brings the old file back |
| VersionBuilding.ApplyEditIsExact | main/versionset.cpp:174-201 | with new numbers, one edit removes exactly its deletions and adds exactly its additions |
| VersionBuilding.BatchIsOneByOne | main/versionset.cpp:174-201 | with fresh numbers, what survives any batch is the set that applying each edit by itself leaves |
| VersionBuilding.MaybeAddFile | main/versionset.cpp:235-248 | keeps a file, with one more reference, unless its number is deleted; the assertion flag says whether neighbours are apart |
| VersionBuilding.SaveLevel | main/versionset.cpp:206-232 | the two-way merge leaves files in order, each as often as base and additions hold it and not at all if deleted, with one more reference per listing; the flag is the overlap assertion |
| VersionBuilding.AssertionMeansDisjoint | main/versionset.cpp:239-244 | comparing neighbours only is comparing all pairs |
| VersionBuilding.SavedSurvivors | main/versionset.cpp:204-248 | with no equivalent files in base and additions, the saved files are exactly the survivors, once each, strictly in order |
| VersionBuilding.BatchSavesExactly | main/versionset.cpp:174-248 | a batch of edits, saved, is the strictly sorted set from applying each in turn; the overlap assertion passes if and only if no two of those files overlap |
| VersionBuilding.Builder.Apply | main/versionset.cpp:174-201 | every level changes by the edit's part for it: deletions, then additions, each a copy with one reference |
| VersionBuilding.Builder.SaveTo | main/versionset.cpp:204-233 | every level is saved, each file with one more reference per listing; the assertion holds exactly if it holds on every level above 0 |
| VersionBuilding.Builder.Destroy | main/versionset.cpp:152-171 | the builder's own references are given back, and no count goes below zero |
| VersionBuilding.SaveBatch | main/versionset.cpp:142-248 | constructor, any number of edits, SaveTo, destructor: with new numbers every level is exactly the sorted set from applying each edit by itself, the assertion holds exactly if nothing above level 0 overlaps, and in the end each file has one more reference per listing |
| VersionEdits.ReadField | main/versionedit.cpp:108-163 | one turn of the tag loop consumes input, so the loop ends |
| VersionEdits.ReadItemBack | main/versionedit.cpp:108-163 | each encoded item is read back by one turn, or refused exactly if its level does not exist |
| VersionEdits.ReadItemsBack | main/versionedit.cpp:108-172 | an encoded list of items is read back to its end, or refused exactly if some level does not exist |
| VersionEdits.InsertPairKeepsOrder | main/versionedit.h:86-88 | the set of deleted files stays strictly ordered and gains exactly the pair |
| VersionEdits.DecodeOfEncode | main/versionedit.cpp:32-172 | decoding an encoded edit succeeds exactly if its levels exist and restores every encoded field, with the last new file standing for all |
| VersionEdits.RoundTripExactly | main/versionedit.cpp:96-172 | the round trip restores the edit if and only if its levels exist and all its new files carry the same metadata |
| VersionEdits.OneNewFileRoundTrip | main/versionedit.cpp:96-172 | with at most one new file the round trip is complete |
| VersionEdits.LeftoverIsRefused | main/versionedit.cpp:107-171 | after an encoded edit, bytes that begin no field, an unknown tag, or a number cut off after its tag are refused, with the edit's fields read |
| WireFormat.EditItemLayout | main/versionedit.cpp:32-72 | the bytes of one item of each kind but a new file |
| WireFormat.NewFileLayout | main/versionedit.cpp:61-72 | the bytes of a new-file item: tag, level, number, size, then the smallest and the largest entry |
| WireFormat.EditLayout | main/versionedit.cpp:32-72 | the order of an edit's parts |
| VersionEdits.TwoNewFilesCollapse | main/versionedit.cpp:105-153 | two different new files decode, with status OK, to the second one twice |
| VersionEdits.VersionEdit.EncodeTo | main/versionedit.cpp:32-73 | appends exactly the edit's bytes |
| VersionEdits.VersionEdit.DecodeFrom | main/versionedit.cpp:96-172 | status and every field, after success or failure, are those of the decoding function; the loop ends on every input whose entries stay inside their slices |
| VersionEdits.VersionEdit.AddFile | main/versionedit.h:72-83 | the edit gains this file at the end, and nothing else changes |
| VersionEdits.VersionEdit.DeleteFile | main/versionedit.h:86-88 | the set of deleted files gains this pair, and nothing else changes |
| VersionSearch.GetFromLists | main/versionset.cpp:62-79 | the newest list holding the key answers: its value if the entry is live, Deleted exactly if it is a deletion, NotHere exactly if no list has the key |
| VersionSearch.AnswerIsLive | main/versionset.cpp:62-79 | for lists filled by runs of pushes the answer is what the runs say: a value exactly if the last entry of the key is live |
| VersionSearch.TableAgreesWithScan | main/builder.cpp:55-85 | when keys live only in their owners' lists, the table built from all lists holds, for every key, the value of the entry the scan found before |
| VersionSearch.TableFileAgreesWithScan | main/builder.cpp:55-85 | searching the bytes of the table file compaction wrote gives, for every key, the value the frozen-list scan gave before |
| VersionSearch.FilesAgreeWithTables | main/builder.cpp:55-85 | searching the bytes of all level-0 files newest first gives, for every key, the value the abstract tables hold |
| VersionSearch.VisibleFromFiles | main/builder.cpp:55-85 | memory first and then a search of the bytes of the level-0 files, a reader the format calls for and the source lacks, gives exactly what the pipeline calls visible |
| VersionSearch.SwapKeepsFiles | memory/compacter.cpp:26-29 | a swap that installs the file built from its merge keeps files and tables in agreement |
| VersionSearch.SearchList | main/versionset.cpp:81-90 | the nested loop with its break collects the matching files in the order of the levels and of each level: all of level 0, the first of every other level |
| VersionSearch.LevelMatchesOrder | main/versionset.cpp:83-88 | a level's files are taken in its order: every match as often as it is listed, or at most one |
| VersionSearch.MatchesOrder | main/versionset.cpp:82-90 | the whole list is a subsequence of the files, level after level |
| VersionSearch.LevelMatchesMember | main/versionset.cpp:83-88 | a file is taken exactly if it matches and, above level 0, no earlier file of its level does |
| VersionSearch.CompleteExactly | main/versionset.cpp:86-87 | stopping at the first match misses no file for any key if and only if no two files of the level overlap |
| VersionSearch.HolderIsSearched | main/versionset.cpp:81-90 | with disjoint levels above 0, every table that holds the key is on the search list |
| FilterBlocks.FilterBlockBuilder.StartBlock | table/filter_block.cpp:19-25 | generates filters up to the block's own: the first takes the pending keys, the rest are empty |
| FilterBlocks.FilterBlockBuilder.AddKey | table/filter_block.cpp:27-31 | the pending keys gain this one |
| FilterBlocks.FilterBlockBuilder.ListKeys | table/filter_block.cpp:57-64 | cutting the flattened keys apart gives the pending keys back |
| FilterBlocks.FilterBlockBuilder.GenerateFilter | table/filter_block.cpp:49-73 | the pending keys become the next filter, empty for none |
| FilterBlocks.FilterBlockBuilder.Finish | table/filter_block.cpp:33-47 | the finished bytes of all filters, with offsets, array offset and base |
| FilterBlocks.OpenFinished | table/filter_block.cpp:75-90 | the reader finds the array and the number of filters again |
| FilterBlocks.KeyMayMatchExactly | table/filter_block.cpp:92-106 | on a finished block the test is the policy's, on exactly the filter of the offset's group; past the last filter it is true |
| FilterBlocks.DamageMayMatch | table/filter_block.cpp:82-105 | contents too short, an array said to begin past the end, and offsets that run backwards or past the filters never rule a key out |
| WireFormat.FilterBlockLayout | table/filter_block.cpp:33-47 | the bytes of one filter block |
| FilterBlocks.GroupsHoldTheirBlocks | table/filter_block.cpp:19-31 | for offsets that never fall, each group holds exactly the keys of the blocks that begin in its 2 KB, and StartBlock's assertion holds |
| FilterBlocks.FilterBlockAnswers | table/filter_block.cpp:92-106 | for any run, offset and key, the answer is the policy's on the keys of the blocks of that 2 KB |
| FilterBlocks.NoFalseNegatives | table/filter_block.h:31-36 | every key added after StartBlock(offset) may match at that offset, shared and empty filters included |
| FilterBlocks.BuildFilterBlock | table/filter_block.h:59-60 | the documented call sequence never fails the assertion and yields a block without false negatives |

## Left out

- Threads, sleeps, system calls and printing: threads are interleaved steps, one per locked region; a
  write call's outcome comes from a script of short writes, interruptions and failures.
- Spurious wakeups, and a broadcast that comes between a writer's check and its wait: the check with its
  wait, and the swap with its broadcast, are one step each.
- Reading through `getValue`: beyond the queue search it is not modelled; table files are collected but
  never opened (main/versionset.cpp:92-95). The theorems are about stored contents.
- Pipeline.Step: the merge reads all lists in one step; sequence numbers are distinct, as the counter in
  `setKey` makes them, and order is push order.
- PipelineTheorems.Visible: the repository has no reader of tables; this one looks in memory and then in the
  tables newest first.
- Compaction.BuildTable: at most 0x8000 merged keys, each with key and value within one log record, so that
  no block or index size passes 32 bits; file names, and files that cannot be opened, are not modelled.
- Coding.MemEntryRoundTrip: entries have 32-bit lengths and a 56-bit sequence number; entries are held by
  value, not as slices into memory of the caller.
- Coding.DecodeMemEntry: slices on which the original reads outside its input have no result.
- Coding.EncodeVarint32: `|` and shifts on separate groups of bits are written as sums.
- Env.WritableFile.WriteUnbuffered: after the script ends every write succeeds; endless interruptions are
  outside the model.
- Env.WritableFile.Sync: fdatasync either succeeds or not; what the operating system keeps in its own
  buffers after a failure is outside the model.
- TableBuilding.TableBuilder.Add: callers keep blocks and index below 2^32 bytes; only kNoCompression, and
  the checksum is zero as in the code; the filter block is commented out there and modelled by itself.
- LogFile.LogWriter: records are entries of at most 100000 bytes, and torn or corrupt logs are outside the
  model.
- MessageQueues.MessageQueue.ReplayLogs: replayed entries are held by value; in the original they point into
  the reader's one buffer.
- WriterThreads.WriterThread: its version is one object; a swap seen from a thread is a step of the pipeline.
- VersionRing.VersionSet: files are known by number and lists by identity, with their reference counts in one
  map; metadata records on the heap are not modelled.
- VersionBuilding.Builder: files are values, so two copies of the same metadata on one level are one; the
  base version's files are passed in; `allowed_seeks`, which nothing reads, is left out.
- VersionEdits.VersionEdit: `log_number_` and the deleted lists are never encoded and not modelled.
- VersionSearch.SearchList: returns the candidate files; the original then does nothing with them.
- FilterBlocks.KeyMayMatch: a stored base of 64 or more, a shift without meaning, is outside the model.
- FilterBlocks.FilterBlockBuilder.Finish: the filters together are below 2^32 bytes.
- Hash quality, `LookupKey`, `PointCache`, the standalone Bloom filter and the command-line program.
- The choice of file numbers: `file_seq_num_` starts unset in the original; numbers are inputs here.
