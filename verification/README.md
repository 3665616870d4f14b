# Zeroskip, modelled and proved in Dafny

Zeroskip is an append-only key-value store. This project models its in-memory algorithms and its
file formats, in the shape the C code has (nodes and chains relinked in place, buffers filled and
read word by word, loops and mutual recursion), and proves what they promise:

* **The memtree** (`memtree_*.dfy`, `memtree.dfy`, `weave.dfy`, `rows.dfy`, `row_tree.dfy`): a
  B-tree of fan-out 10/5 with parent and slot back-pointers. A node keeps the fields of the source; a snapshot of the
  live part of every node is a value, and the tree invariant, one insertion and one split are
  stated on snapshots. Its contents are a sorted sequence, a cursor is a gap in it, and the rows of
  a tree and a map updated by the same operations agree.
* **The merging iterator** (`pqueue.dfy`, `htable.dfy`, `iter_table.dfy`, `merge_state.dfy`,
  `merge.dfy`, `begin.dfy`): a heap, a hash table and per-source cursors, moved by two procedures that
  call each other. One invariant ties the three together, including bindings that are never removed
  and the marks by which deletions are left out.
* **CRC-32C** (`crc32c*.dfy`, with published values in `crc32c_values.dfy`): the definition in section 12.1 of RFC 3720, one bit at a time, and
  from the linearity of the register over exclusive or: slicing by 4, the three-way version and
  the CRC of several buffers.
* **Records, the log and a session** (`words.dfy`, `mfile.dfy`, `format.dfy`, `layout.dfy`, `record.dfy`,
  `writer.dfy`, `active.dfy`, `reference.dfy`, `session.dfy`, `db.dfy`): encoders and decoders, the bytes they
  work on, commits,
  and runs of add, remove, commit, abort, finalise and reopen, with rollovers, whose files, where they
  can be read to their ends, give back what the trees say.
* **Start-up** (`natural.dfy`, `finalised.dfy`): the order of file names, and loading finalised
  files by index.
* **Sessions and iteration together** (`dump.dfy`): what a database shows after a run.
* **Packed files** (`packed_format.dfy`, `packed.dfy`, `packed_log.dfy`, `row_sizes.dfy`,
  `repack.dfy`): writing, opening, searching and merging them.
* **What they share** (`bytes.dfy`, `sequences.dfy`, `wrappers.dfy`).

Bytes are 8-bit vectors, CRC registers 32-bit vectors. Other words are natural numbers with their
width written out where it matters: rounding up wraps at 2^64, fields are cut to their bits, hashes
to 32 bits, and the difference of two numbers in file names to an int.

`dafny verify dfyconfig.toml` checks everything.

## What the proofs found

* `iter_htable_remove` probes with the hash of the key but no key and so never removes a binding
  (`IterTable.IterTable.Remove`). The merge is right all the same: a binding outlives its key in the
  heap only for keys that have been passed, and puts go in front (`MergeState.ArriveMeets`).
* A rehash turns the entries of each key around (`HTable.RehashReverses`), so the iterator's table is right
  only because it stays at 64 buckets; `htable_put` rehashes on the shrink mark, which is 0 there.
* Distinct priorities are not needed for the merge: with equal ones each key still comes from a source of
  the highest priority (`Merge.Iterator.Run`). They are needed for the result to be unique
  (`Repack.MergedUnique`).
* `round_up_bits` is exact if and only if the length is at most 2^61 - 8 (`Words.RoundUpBitsIff`).
* A deleted key of more than 65535 bytes is written without a type (`Format.DeleteFields`), and
  `REC_TYPE_LONG_DELETED` does not include the deleted bit. Removing such a key is not refused, but a
  record of an unhandled type is neither passed nor reported, so a file with it is never read to its
  end (`Active.LongDeletionStops`). Reading a file without long commits ends if and
  only if every such record comes after a bad commit (`Active.TerminatesIff`), and otherwise stays at
  the first of them for any number of rounds (`Active.ForeachRounds`).
* An abort brings back what the database said at the last commit or rollover, not at the last commit:
  when an add finds the active file at 2 MB or more, everything in it is finalised, committed or not
  (`Reference.AbortBringsBack`; `Reference.AddAbort` says exactly when one add and an abort undo what
  is not committed, and `Reference.AddNotUndone` has an input for which they do not).
* A removal begins the CRC anew. What was appended before it since the last commit is then covered by no
  commit, although it is saved (`Reference.RemoveCoversIff`, `Reference.AddNotCovered`).
* Closing a dirty database writes a commit but does not move the good offset. After opening it again an
  abort, and even a commit and then an abort, bring back what was saved before (`Reference.ReopenAbort`,
  `Reference.CommittedRowLost`). Without that, a database that is not dirty says what an abort would
  bring back (`Reference.RunSettled`).
* Finalising a file when no CRC is running, as after a commit, writes a commit that goes on from the CRC
  left by the last one. It is accepted if and only if that is zero (`Session.StaleSealed`); for
  every key there is a value for which it is not (`Session.StaleBad`). Nothing is lost by it:
  the file is loaded whole (`Session.ShelvedLoads`).
* The mark by which the iterator leaves out deletions is never taken off a packed file. Exactly the
  deletions are left out if and only if no packed file has, after a deletion, a live key that is found
  nowhere better (`Begin.DbShowsLive`, with a failure in `Merge.LiveKeyLost`). Merging packed files
  loses such rows for good, and keeps a winning deletion if and only if it is the first record of its
  file (`Repack.OverlayIff`, `Repack.RowLost`, `Repack.DeletionStays`).
* `natural_strcasecmp` reads a number as a long, which stops at the largest one, and returns differences
  of numbers and of digit counts as ints. It tells the order of numbers and characters if and only if
  that order is still told after these cuts (`Natural.CompareIsOrder`); when all numbers fit a long,
  exactly the first difference matters (`Natural.LongsOrder`). Failures are in `Natural.LargeNumbers`,
  `Natural.BeyondLong`, `Natural.LookAlike` and `Natural.LongRuns`. The empty string comes after every
  string that starts with a digit and before all others.
* Iterating looks at the first record of the finalised tree without asking whether there is one, and so
  fails if and only if finalised files were loaded that have no row (`Begin.BeginDb`, with a run that
  leads there in `Dump.FinalisedEmpty`).
* The CRC of a commit takes the commit's words in the byte order of the machine, not of the file;
  `CommitCrc` and `LongCommitCrc` follow a little-endian machine.

## Model

| member | source | states |
|---|---|---|
| MemTreeSearch.Search | include/libzeroskip/memtree.h:186-233 | the macro's binary search ends at the number of records with smaller keys, and reports found exactly when the record there has the key |
| MemTreeNode.NodeInsert | src/memtree.c:126-153 | record and branch go in at `pos` and `pos + 1`, every later one moves one slot, and every moved branch is told its new slot and parent |
| MemTreeNode.NodeSplit | src/memtree.c:159-222 | for each of the 11 positions, in leaves and internal nodes and in both layouts: 5 records stay, the 6th of the 11 goes up, 5 go right; all 12 branches, the right node's first one included, end up linked to the half they are in |
| MemTreeHeap.InsertStep | src/memtree.c:126-153 | a tree that only lacks this insertion is, after it, a tree in which only the parent's contents are out of date: every link and fill bound survives |
| MemTreeHeap.SplitStep | src/memtree.c:159-222 | the same for a split: only the new sibling's place in the parent is still missing |
| MemTreeHeap.SplitSums | src/memtree.c:159-222 | left half, median and right half together are the old contents with the new record and branch in their place |
| MemTreeHeap.GrowStep | src/memtree.c:655-672 | a one-record root over the two halves of the old root is a tree again |
| MemTreeHeap.FillBounds | include/libzeroskip/memtree.h:23-24 | a node has at most 10 records and, unless it is the root, at least 5; an internal one has one child more |
| Weave.WovenInTurn | src/memtree.c:355-379 | the contents of a node are those of its children with its records between them |
| MemTreeClimb.SplitAndRise | src/memtree.c:640-652 | one round of the climb: what is carried to the parent stands for the original record at the same gap of the whole tree |
| MemTreeClimb.Climb | src/memtree.c:620-652 | the climb ends with the record in the tree, or with a split root whose two halves and median are the old contents with the record put in |
| MemTreeClimb.InsertFull | src/memtree.c:620-677 | with the new root on top, if there is one: a tree, holding the old contents with the record at its gap |
| MemTreeGap.RecordAtGap | src/memtree.c:679-695 | the record at a node position is the record of the whole tree at the gap that the position denotes |
| MemTreeGap.GapAtEnd | src/memtree.c:43-54 | ascending from the end of a node does not change the gap; from the end of the root there is nothing after it |
| MemTree.MemTree.constructor | src/memtree.c:404-423 | an empty valid tree |
| MemTree.MemTree.Deref | src/memtree.c:679-695 | succeeds exactly when a record follows the gap, gives that record, and keeps the gap |
| MemTree.MemTree.Next | src/memtree.c:469-479 | raises the gap by one and gives the record passed over; fails exactly at the end and then leaves the cursor alone |
| MemTree.MemTree.Prev | src/memtree.c:450-467 | lowers the gap by one and gives the record that next would then pass; fails exactly at the start |
| MemTree.MemTree.Begin | src/memtree.c:431-448 | stands at gap 0, and fails exactly for the empty tree |
| MemTree.MemTree.WalkCursor | src/memtree.c:431-479 | begin, then next until it fails: all records once, in key order |
| MemTree.MemTree.WalkNode | src/memtree.c:355-379 | the recursive walk visits exactly the in-order contents below a node |
| MemTree.MemTree.WalkForward | src/memtree.c:754-757 | the walk visits the whole contents in key order |
| MemTree.MemTree.Find | src/memtree.c:585-618 | lands on the gap equal to the number of smaller keys; found exactly when the key is there, at whatever level, and gives its record |
| MemTree.MemTree.InsertAt | src/memtree.c:620-677 | keeps a valid B-tree (links, equal leaf depth, 5 to 10 records, count) whose contents are the old ones with the record put in at the cursor's gap |
| MemTree.MemTree.InsertOpt | src/memtree.c:481-508 | refused exactly when the key is there and may not be replaced, and then nothing changes; otherwise the rows are updated at that key |
| MemTree.MemTree.Replace | src/memtree.c:481-508 | the tree's rows after it are the old rows updated at the key, in sorted order |
| RowTree.RowTree.Replace | src/zeroskip.c:72-83 | a record made from key, value and flag updates the tree like a map |
| Rows.UpsertMap | src/memtree.c:481-508 | updating sorted rows is updating the map they stand for |
| Rows.PutIsReplay | src/zeroskip.c:72-96 | any run of puts, one after the other, leaves sorted rows, and as a map the old one overridden by the run read left to right |
| Rows.SortedRowsUnique | src/memtree.c:481-508 | sorted rows are determined by their map, so a tree and a map updated alike agree |
| Bytes.MemcmpRawIsDictionaryOrder | include/libzeroskip/util.h:273-285 | the sign of memcmp_raw is the dictionary order of the two byte strings, and 0 means equal |
| Bytes.MemcmpRawIs | include/libzeroskip/util.h:273-285 | its sign says, without any recursion, which of the two keys, after the bytes they share, has ended or has the smaller byte: a key comes before every longer key that it begins |
| Bytes.LessIs | include/libzeroskip/memtree.h:186-233 | the same of the order that trees, files and iteration are sorted by |
| PQueue.TopIsMinimum | src/pqueue.c:91-97 | in heap order the first slot is a minimum |
| PQueue.SwapUp | src/pqueue.c:39-54 | one sift-up swap leaves only the next slot up possibly out of order |
| PQueue.SwapDown | src/pqueue.c:59-86 | one sift-down swap with the lesser child leaves only that child possibly out of order |
| PQueue.PQueue.Put | src/pqueue.c:39-54 | keeps the heap order and adds exactly the element, for any total preorder |
| PQueue.PQueue.Get | src/pqueue.c:59-86 | keeps the heap order, takes exactly one element out, and that is a minimum; nothing exactly when empty |
| PQueue.PQueue.Peek | src/pqueue.c:91-97 | a minimum, or nothing exactly when empty |
| PQueue.Drain | src/zeroskip.c:749-754 | getting until empty gives a sorted permutation of what was in the queue |
| HTable.BufHash | src/htable.c:94-105 | the loop computes the 32-bit FNV hash of the whole buffer |
| HTable.HashValues | src/htable.c:94-105 | the published FNV-1 values of "a" and "foobar" |
| HTable.BucketIsRemainder | src/htable.c:55-59 | the bits that a hash has in common with size - 1 are, for a size of 2^k, its remainder by the size |
| HTable.HTable.Link | src/htable.c:158-168 | the entry stands in front of its bucket, all others as before |
| HTable.HTable.Get | src/htable.c:143-146 | the first entry of the bucket with the hash and the key, or none |
| HTable.FrontFound | src/htable.c:158-168 | after a put the new entry is the one found for its hash and key, and every other lookup is unchanged |
| HTable.HTable.Put | src/htable.c:158-168 | adds the entry in front and then, on the shrink mark, rehashes to a larger table, as the code does |
| HTable.HTable.Unlink | src/htable.c:170-188 | relinking leaves all chains but for the one entry |
| HTable.HTable.Remove | src/htable.c:170-188 | takes out the first match and nothing else; nothing changes when there is none |
| HTable.HTable.Rehash | src/htable.c:73-91 | the same multiset of entries, each in bucket hash mod size of the new size |
| HTable.HTable.MarkValues | src/htable.c:33-43 | a table of 64 buckets has the marks 51 and 0, one of 256 the marks 204 and 40 |
| HTable.SpreadFlat | src/htable.c:73-91 | spreading entries over buckets loses and duplicates none |
| HTable.MatchingInBucket | src/htable.c:55-71 | all entries for a key are in one bucket, in the table's order |
| HTable.RehashReverses | src/htable.c:73-91 | a rehash reverses the entries of every key: a lookup that found the newest then finds the oldest, whatever the two sizes |
| HTable.HTable.IterNext | src/htable.c:205-220 | gives the next entry in bucket order, or none exactly when all have been given |
| HTable.FlatOnce | src/htable.c:73-91 | no entry is in two places of the chains, because each is housed in the bucket of its hash |
| HTable.HTable.Walk | src/htable.c:198-220 | the table iterator visits every entry exactly once: the walk has no entry twice, and as a set it is the table's entries |
| IterTable.IterTable.Get | src/zeroskip-iterator.c:62-77 | with 64 buckets: the most recent binding of the key |
| IterTable.IterTable.Size | src/zeroskip-iterator.c:57-60 | the table stays at 64 buckets |
| IterTable.IterTable.Put | src/zeroskip-iterator.c:79-91 | binds the key anew, the old entry staying behind the new one |
| IterTable.NoEmptyKey | src/zeroskip-iterator.c:93-105 | a probe without a key matches no entry that has one |
| IterTable.IterTable.Remove | src/zeroskip-iterator.c:93-105 | removes nothing: every binding of a non-empty key stays |
| MergeState.ArriveNew | src/zeroskip-iterator.c:279-315 | a source at an unbound key that goes into the heap restores the invariant |
| MergeState.ArriveMeets | src/zeroskip-iterator.c:279-315 | a bound key that is still ahead is pending, for another live source standing at it: a stale binding is never met |
| MergeState.ArriveHigher | src/zeroskip-iterator.c:279-315 | a source of higher priority takes the place, and the one that was there may leave its key without losing it |
| MergeState.ArriveLower | src/zeroskip-iterator.c:279-315 | a source of no higher priority may leave its key without losing it |
| MergeState.Advance | src/zeroskip-iterator.c:228-276 | moving the source in flight on leads to the invariant again, or to it being done |
| MergeState.NoBetter | src/zeroskip-iterator.c:582-608 | no source that holds the least pending key, read or unread, has a higher priority than the bound one |
| MergeState.Pop | src/zeroskip-iterator.c:582-608 | popping the least key keeps heap, newest bindings and sources in step although the binding is not removed |
| MergeState.Finished | src/zeroskip-iterator.c:613-625 | an empty heap means every key of every source has been handed out |
| Merge.UnreadLess | src/zeroskip-iterator.c:228-276 | every advance lowers the total of unread records, the measure by which the two procedures terminate |
| Merge.MoveOn | src/zeroskip-iterator.c:228-276 | goes to the next key; a tree's mark becomes that of its record, a packed file's is set by a deletion and never taken off |
| Merge.MarkAdvanced | src/zeroskip-iterator.c:228-276 | so the mark of a packed file tells whether any record up to where it stands is a deletion, the first one counting only where the iterator looked at it |
| Merge.Iterator.Process | src/zeroskip-iterator.c:279-315 | terminates with the invariant and every source's mark right again, and no source's keys changed |
| Merge.Iterator.DataNext | src/zeroskip-iterator.c:228-276 | terminates with the invariant restored and strictly less left to read |
| Merge.Iterator.Begin | src/zeroskip-iterator.c:356-430 | adding a non-empty sorted source, with the mark of its first record or without, establishes the invariant with it; what the sources are is in `Begin.BeginDb` |
| Merge.Iterator.Get | src/zeroskip-iterator.c:582-608 | hands out the least pending key from its best source; nothing exactly when nothing is pending |
| Merge.Iterator.Next | src/zeroskip-iterator.c:613-625 | moves that source on; more exactly when something is pending |
| Merge.Iterator.Run | src/zeroskip.c:1299-1327 | for any sources and priorities: strictly ascending keys, every key of the union, each from a source of the highest priority that holds it; shown are exactly those that came from an unmarked source |
| Merge.LiveShownIff | src/zeroskip-iterator.c:256-260 | for distinct priorities, only deletions are left out if and only if no source is marked at a live key for which no better source exists |
| Merge.DeletionsMarked | src/zeroskip-iterator.c:389-430 | where the iterator looks at first records, every deletion is left out |
| Merge.LiveKeyLost | src/zeroskip-iterator.c:256-260 | concrete failure: of a packed file with a live key, a deletion and another live key, the last one is left out |
| Crc32c.RunLinear | src/crc32c.c:363-367 | the register after a message is linear in its start: state(s xor d, B) = state(s, B) xor shift(d, |B|) |
| Crc32c.CrcConcat | src/crc32c.c:675-684 | continuing the CRC of A over B is the CRC of A followed by B |
| Crc32c.CrcInjective | src/crc32c.c:675-684 | CRCs of the same data are equal only if they went on from the same value |
| Crc32c.LastByteTells | src/crc32c.c:675-684 | CRCs of data that differ in the last byte are different |
| Crc32c.UpdateTells | src/crc32c.c:675-684 | a changed byte anywhere in the data changes the CRC |
| Crc32cValues.CheckValue | src/crc32c.c:675-684 | the CRC of the digits from 1 to 9 is 0xE3069283, the published check value |
| Crc32cValues.ZeroByte | src/crc32c.c:675-684 | the CRC of one zero byte is 0x527D5351 |
| Crc32cValues.FirstTable | src/crc32c.c:461-528 | entries 1 and 128 of the first table are those in the source |
| Crc32cValues.OtherTables | src/crc32c.c:461-597 | entry 1 of the second, third and fourth table is that in the source |
| Crc32cTables.LookupIsShift | src/crc32c.c:613-645 | table k, generated by its recurrence, holds a byte shifted through k + 1 byte positions |
| Crc32cTables.TableStep | src/crc32c.c:613-645 | a bytewise step needs only the low byte's table entry |
| Crc32cFast.SliceFourIsShift | src/crc32c.c:613-645 | four lookups are 32 single-bit shifts |
| Crc32cFast.FourIn | src/crc32c.c:613-645 | four bytes taken in one by one equal one word taken in at once |
| Crc32cFast.BigBytes | src/crc32c.c:600-610 | the swapped word of a big-endian machine has the same bytes in the opposite order |
| Crc32cFast.CrcSw | src/crc32c.c:613-645 | slicing by 4 equals the bit-at-a-time CRC-32C for every input and start value, in both byte orders; which function that is, is pinned by `Crc32cValues.CheckValue` |
| Crc32cFast.ShiftByTableIsShift | src/crc32c.c:363-367 | four tables, one for each byte, apply the zeros operator of any length |
| Crc32cFast.ThreeWays | src/crc32c.c:391-404 | three interleaved registers hold the states of three adjacent blocks |
| Crc32cFast.Combine | src/crc32c.c:405-406 | a block started from zero, added to the shifted state before it, is the serial state after it |
| Crc32cFast.Blocks | src/crc32c.c:387-433 | any number of triple blocks gives the serial state, and fewer than three blocks are left |
| Crc32cFast.CrcHw | src/crc32c.c:370-453 | the three-way version equals the bit-at-a-time CRC-32C for every buffer, length, start value and alignment |
| Crc32cFast.CrcIovec | src/crc32c.c:691-701 | the CRC of several buffers is the CRC of their concatenation |
| Crc32cFast.ConcatAll | src/crc32c.c:691-701 | the concatenation is that of all buffers in their order |
| Words.RoundUpBitsIff | include/libzeroskip/util.h:253-260 | rounds up to whole words if and only if the length is at most 2^61 - 8; beyond it wraps |
| Words.Be64RoundTrip | include/libzeroskip/util.h:101-106 | a word that was written is read back; in which order its bytes stand is in `Words.Be64Bytes` |
| Words.BytesAt | include/libzeroskip/util.h:84-106 | each byte from the number: byte n - 1 - j of n is the number divided by 256^j, modulo 256 |
| Words.Be64Bytes | include/libzeroskip/util.h:84-106 | the eight bytes of a word in a file, the most significant one first |
| Words.Le64Bytes | include/libzeroskip/util.h:84-106 | and in the memory of a little-endian machine, the least significant one first |
| MFile.MFile.Write | src/mfile.c:229-283 | the buffer after a write at any offset, and data length = offset - begin kept while the CRC is on |
| MFile.OverwrittenAt | src/mfile.c:229-283 | each byte after it: what was written, what was there, or zero in a gap |
| MFile.MFile.Seek | src/mfile.c:505-523 | moves within the file, with an error and no move past its end or on an empty file |
| MFile.MFile.Truncate | src/mfile.c:442-473 | cuts or lengthens the file; the offset stays |
| MFile.MFile.CrcStart | src/mfile.c:526-532 | the accounting starts at the offset with nothing counted |
| MFile.MFile.CrcEnd | src/mfile.c:534-546 | the CRC is that of exactly the bytes counted, or, when none is running, what the last one left |
| Format.KeyFields | src/zeroskip-file.c:23-79 | type, length and value offset of a key record do not overlap and come back, short and long |
| Format.ValFields | src/zeroskip-file.c:83-133 | type and length of a value record come back, short and long |
| Format.DeleteFields | src/zeroskip-file.c:137-183 | a deletion has its type if and only if the key is at most 65535 bytes: the word of a longer one is never written |
| Layout.ShortKeyBytes | src/zeroskip-file.c:23-79 | a short key record byte by byte: type 1, two bytes of length, four of value offset, the key from byte 24 on, and zeros |
| Layout.LongKeyBytes | src/zeroskip-file.c:23-79 | a long one: type 33, and length and value offset in a word each |
| Layout.ShortValBytes | src/zeroskip-file.c:83-133 | a value record: type 2, three bytes of length, the value from byte 16 on, and zeros |
| Layout.LongValBytes | src/zeroskip-file.c:83-133 | a long one: type 34, and the length in a word |
| Layout.ShortDeleteBytes | src/zeroskip-file.c:137-183 | a deletion: type 64, two bytes of length, and no value offset |
| Layout.LongDeleteBytes | src/zeroskip-file.c:137-183 | a long one: a zero word, and the length in a word |
| Layout.CommitBytes | src/zeroskip-file.c:303-328 | a short commit: type 4, or 16 for a final one, three bytes of length and four of CRC |
| Layout.LongCommitBytes | src/zeroskip-file.c:266-302 | a long commit: type 36 or 48, the length in a word, type 8 and the CRC |
| Layout.CommitForType | src/zeroskip-file.c:253-350 | the type of the commit after data: the long one from 16777216 bytes on |
| Format.CommitCrcIs | src/zeroskip-file.c:303-328 | the CRC of a short commit is that of the data followed by the commit's word |
| Format.LongCommitCrcIs | src/zeroskip-file.c:266-302 | the CRC of a long commit is that of the data followed by its three words |
| Format.CommitCrcTells | src/zeroskip-record.c:214-231 | a changed byte of the data changes the CRC of a short commit |
| Format.LongCommitCrcTells | src/zeroskip-file.c:266-302 | and that of a long one |
| Format.EncodeAligned | src/zeroskip-file.c:23-183 | every record is a positive whole number of 8-byte words |
| Format.LogAligned | src/zeroskip-file.c:188-393 | every record of a log starts at a multiple of 8 after the header |
| Format.LogAppend | src/zeroskip-file.c:188-393 | appending a record extends bytes and rows by its own and leaves all earlier ones |
| Record.PrepareKeyBuf | src/zeroskip-file.c:23-79 | the buffer filled word by word is the record's encoding, padding included |
| Record.PrepareValBuf | src/zeroskip-file.c:83-133 | the buffer filled word by word is the record's encoding, padding included |
| Record.PrepareDeleteKeyBuf | src/zeroskip-file.c:137-183 | the same for a deletion, with the untyped first word of a long one |
| Record.ReadKeyVal | src/zeroskip-record.c:136-166 | decoding an encoded key and value gives both back and advances by exactly their bytes |
| Record.ReadDeleted | src/zeroskip-record.c:168-186 | decoding a deletion, short or long, gives the key back and advances by exactly its bytes |
| Record.TypedFirst | src/zeroskip-priv.h:113-119 | the type that is read as that of a long deletion is 32 |
| Record.ReadAndVerifyCommit | src/zeroskip-record.c:188-232 | accepts a short commit if and only if its CRC is that of the data its length reaches back over and of its own word |
| Record.VerifyChanged | src/zeroskip-record.c:188-232 | an accepted commit is refused as soon as one byte of the data it covers has become another |
| Record.TypeAt | src/zeroskip-record.c:283-331 | the type byte tells which kind of record was written |
| Record.DeleteHandled | src/zeroskip-record.c:283-331 | what the encoder writes for a deletion is dispatched on if and only if the key is at most 65535 bytes |
| Record.RecordRead | src/zeroskip-record.c:283-331 | a written record that can be passed gives its rows and is passed, ok unless it is a bad commit; any unhandled type, as a long deletion has, is left where it is without an error |
| Record.ReadKeyValFromOffset | src/zeroskip-record.c:394-408 | following the key's value offset finds the value that was written with it |
| Writer.WriteKeyVal | src/zeroskip-file.c:188-247 | appends the encodings of key and value |
| Writer.WriteDelete | src/zeroskip-file.c:352-393 | appends the encoding of the deletion |
| Writer.WriteCommit | src/zeroskip-file.c:253-350 | appends the commit that goes with the bytes since the CRC was begun, short or long by their number, or, when none is running, a commit over nothing that goes on from the CRC left over; ends the CRC |
| Active.GoodIff | src/zeroskip-active.c:223-249 | all items are gone past if and only if every commit checks and every record can be passed |
| Active.GoodStops | src/zeroskip-active.c:223-249 | the first item that is not gone past bounds what any longer read takes in |
| Active.TerminatesIff | src/zeroskip-active.c:223-249 | for a log without long commits the loop ends if and only if every record that cannot be passed comes after a bad commit |
| Active.LongDeletionStops | src/zeroskip.c:953-1004 | concrete failure: a file whose first record deletes a key of 65536 bytes, which the encoder writes, is never read to its end |
| Active.RecordForeach | src/zeroskip-active.c:223-249 | where it ends: the rows handed to the callbacks are, one for one, those before the first bad commit, the tree has them, and it is ok exactly when there is none |
| Active.ForeachRounds | src/zeroskip-active.c:223-249 | for every log without long commits that can be written, ending or not: so many rounds of the loop end it if and only if it terminates and they suffice; otherwise it stays before the item reached, for any number of rounds before the first record it cannot pass |
| Reference.AbortBringsBack | src/zeroskip.c:1345-1397 | in every run an abort brings back what the database said at the last finalise, rollover or commit that had something to commit |
| Reference.AddAbort | src/zeroskip.c:914-925 | an add and an abort undo what is not committed if and only if the add does not roll over a file with some of that in it |
| Reference.AddNotUndone | src/zeroskip.c:914-925 | concrete failure: in a new database, an add that brings the file to 2097152 bytes outlives an abort after the next add |
| Reference.AddUndone | src/zeroskip.c:914-925 | with eight bytes less in the file it is undone |
| Reference.RunSettled | src/zeroskip.c:811-861 | in every run in which no dirty database is closed, a database that is not dirty says what an abort would bring back |
| Reference.ReopenAbort | src/zeroskip-active.c:78-103 | after a dirty database was closed and opened it says the same, but an abort, and even a commit and then an abort, bring back what was saved before |
| Reference.CommittedRowLost | src/zeroskip-active.c:78-103 | concrete failure: a row that was added, found again after closing and opening, and committed then, is lost by an abort |
| Reference.RunNamed | src/zeroskip.c:863-1004 | no run leaves a row with the empty key |
| Reference.LastTouchCounts | src/zeroskip.c:863-1004 | in every run, from the last operation that names a key to the next abort, the database says of the key exactly what that operation said |
| Reference.KeepsCovering | src/zeroskip.c:926-943 | as long as nothing is removed, the next commit covers all that was appended since the good offset |
| Reference.RemoveCoversIff | src/zeroskip.c:983-990 | after a removal it does if and only if nothing was appended before that |
| Reference.AddNotCovered | src/zeroskip.c:983-990 | concrete failure: after adding a row and removing a key the commit covers 32 of the 88 bytes |
| Session.Appended | src/zeroskip.c:863-1004 | a record appended to a good log, with its rows put into the tree, is a good log of the new tree |
| Session.Cut | src/zeroskip.c:1362-1371 | truncating at the saved offset leaves the good log that was kept, commit CRCs included |
| Session.Replayed | src/zeroskip-active.c:223-249 | reading a good log that can be passed into an empty tree succeeds and gives the log's rows |
| Session.ReplayEnds | src/zeroskip-active.c:223-249 | reading the log of a session with short commits ends if and only if it holds no deletion of a key of more than 65535 bytes |
| Session.Sealing | src/zeroskip-file.c:303-328 | the commit written over the bytes at the end of the file is accepted by the verifier there |
| Session.StaleSealed | src/zeroskip-file.c:303-328 | a commit written while no CRC is running is accepted if and only if the CRC left by the last one is zero |
| Session.StaleBad | src/zeroskip-file.c:303-328 | concrete failures: for every key one of two values of 8 bytes is such that, after a commit over the two, the next one without a running CRC is not accepted |
| Session.ShelvedLoads | src/zeroskip-finalised.c:100-127 | a finalised file that can be passed is loaded whole, whether that last commit is accepted or not |
| Session.OlderLoaded | src/zeroskip.c:497-509 | loading a session's finalised files is what start-up loads in the order of their indexes |
| Session.RowState | src/zeroskip.c:863-1004 | a row put into the active tree is the one change in what the two trees together say |
| Session.RolledOver | src/zeroskip-active.c:105-199 | after a rollover files and trees agree again, all that was in the active file being in the finalised ones |
| Session.Reloaded | src/zeroskip.c:427-531 | after the cut and the reload files and trees agree again, with the finalised rows in their own tree |
| Session.AbortState | src/zeroskip.c:1345-1397 | and the two trees together then say what was saved |
| Session.LoadedAgain | src/zeroskip.c:427-531 | loading files that have not changed into new trees gives trees that agree with them and together say the same |
| Db.WriteClosing | src/zeroskip-file.c:253-350 | the commit is good if and only if the CRC was running or zero was left, and it reaches back over exactly the bytes since the CRC began |
| Db.FinaliseCommitted | src/zeroskip-active.c:105-145 | a key and eight bytes, a commit and then a finalise leave a file of header, record, the good commit over it, and just such a commit |
| Db.AppendDelete | src/zeroskip.c:983-990 | after a deletion the CRC covers that record alone |
| Db.LoadFiles | src/zeroskip.c:497-509 | loads all finalised files, the oldest first |
| Db.Replay | src/zeroskip-active.c:223-249 | replaying a file of a session that can be passed accepts every commit and gives exactly its rows |
| Db.Db.constructor | src/zeroskip-active.c:147-199 | a new database: an active file that has only a header, and empty trees |
| Db.Db.AddRecord | src/zeroskip.c:926-951 | files and trees go on agreeing, and the CRC goes on over the new record, begun here only when none was running |
| Db.Db.Remove | src/zeroskip.c:953-1004 | the same for a deletion, of a key of any length, although the CRC then covers only this record, even in mid-transaction |
| Db.Db.Roll | src/zeroskip-active.c:105-199 | the active file joins the finalised ones with a commit that is good if and only if the CRC was running or zero was left; a new one is begun, the trees stay, and everything is saved |
| Db.Db.Add | src/zeroskip.c:863-951 | adds after rolling over a file of 2 MB or more, and is then the reference step |
| Db.Db.Finalise | src/zeroskip.c:1627-1679 | a rollover on request is the reference step |
| Db.Db.Commit | src/zeroskip.c:1006-1040 | a dirty file gets the commit over exactly the bytes since the CRC began, short or long, a clean one nothing; everything is saved, and the good offset is the end of the file |
| Db.Db.Abort | src/zeroskip.c:1345-1397 | the log loses what came after the last commit, and both trees, reloaded from the files, say what was saved |
| Db.Db.Reload | src/zeroskip.c:427-531 | the active tree has the rows of the active file and the finalised tree those of the finalised files |
| Db.Db.Close | src/zeroskip-active.c:78-103 | closing a dirty database writes the commit but leaves the good offset, and so what an abort brings back |
| Db.Db.Open | src/zeroskip.c:712-800 | opening loads everything from the files, and the database says what it said |
| Db.Db.Reopen | src/zeroskip.c:811-861 | closing and opening, dirty or not, is the reference step, and changes nothing that the database says |
| Db.Db.Reread | src/zeroskip.c:712-770 | reading all files of a session into new trees gives exactly what the session says |
| Db.Db.OnlyActive | src/zeroskip-active.c:223-249 | without finalised files the active file alone is a good log of the active tree's rows |
| Db.Do | src/zeroskip.c:863-1040 | each operation is the reference step, sizes and pending bytes included |
| Db.Run | src/zeroskip.c:811-1040 | every run of add, remove, commit, abort, finalise and reopen, through any number of rollovers, is the reference run and keeps the invariant, with which the files can be read back (`Db.Db.Reread`) |
| Natural.NaturalStrcasecmp | src/util.c:431-470 | loop and recursion terminate and compute the comparison function |
| Natural.CompareIsSeen | src/util.c:431-470 | for all strings the sign is the order of what the comparison sees of them: numbers no larger than the largest long, the cut difference of unequal ones, and the cut difference of their digit counts |
| Natural.CompareIsOrder | src/util.c:431-470 | the sign of the result is the order of the two strings as numbers and characters if and only if it is still told after numbers are cut off at the largest long and differences cut to an int |
| Natural.LongsTold | src/util.c:439-447 | when all numbers fit a long, the first difference alone decides whether the order is told |
| Natural.LongsOrder | src/util.c:439-447 | on strings whose numbers fit a long the sign of the result is the order if and only if the first difference keeps its sign as an int |
| Natural.SmallIsTold | src/util.c:439-447 | it always is when numbers and digit counts are below 2^31 |
| Natural.LexTransitive | src/util.c:431-470 | the order is transitive |
| Natural.Examples | src/util.c:431-470 | small examples: numbers count, letters do without case, digits come first, and then more digits |
| Natural.SmallIsPreorder | src/util.c:431-470 | on strings whose numbers and digit counts are below 2^31 the comparison is a total preorder |
| Natural.LargeNumbers | src/util.c:444-447 | concrete failures: the numbers 2^32 and 0 compare as equal, and 2^31 comes before 0 |
| Natural.BeyondLong | src/util.c:439-447 | the largest long and the number after it compare as equal |
| Natural.LookAlike | src/util.c:439-447 | so do all numbers of equal length that are not below the largest long: what follows decides |
| Natural.LongRuns | src/util.c:448-458 | 2^32 + 1 noughts and one nought compare as equal |
| Natural.LongerFirst | src/util.c:448-458 | of two numbers not below the largest long, the one with more digits comes first, although it is the larger |
| Natural.SamePrefix | src/util.c:459-467 | a shared beginning that does not end inside a number does not matter, whatever digits are in it |
| Natural.NamesByIndex | src/zeroskip-filename.c:41-67 | names with one directory and UUID compare as their index pairs do, for indexes below 2^31 |
| Finalised.Scan | src/zeroskip.c:149-172 | every file found is queued once |
| Finalised.ListFiles | src/zeroskip.c:749-754 | the list has the same files, the highest index at its head |
| Finalised.LoadFile | src/zeroskip-finalised.c:100-127 | loads the rows before the first bad commit |
| Finalised.Load | src/zeroskip.c:749-770 | whatever order the scan yields, the tree is that of reading the files from the lowest index to the highest |
| Finalised.ByIndexUnique | src/zeroskip.c:749-754 | there is only one order by index, when no two files share one |
| Finalised.NewestWins | src/zeroskip.c:756-770 | a key is in the tree if and only if some file has it, with what the newest such file says |
| PackedFormat.CountAt | src/zeroskip-packed.c:27-44 | the count of pointers is read back |
| PackedFormat.PointerAt | src/zeroskip-packed.c:46-62 | every pointer is read back |
| PackedFormat.ShortFinalAt | src/zeroskip-packed.c:70-131 | type, length and CRC of a short final commit come back |
| PackedFormat.LongFinalAt | src/zeroskip-packed.c:70-131 | all three words of a long final commit come back |
| Packed.WriteRecords | src/zeroskip-packed.c:163-203 | appends the records, and the index is where each of them starts |
| Packed.NewFromMemtree | src/zeroskip-packed.c:384-473 | the file is header, the tree's records in order, their commit, the pointers and the final commit, for any tree that fits a file |
| PackedLog.CommitBefore | src/zeroskip-packed.c:420-446 | after the 40 bytes of the header stand the records, then the commit over them, and then the pointers |
| PackedLog.FirstOffset | src/zeroskip-packed.c:163-178 | the first pointer is 40 |
| PackedLog.FrontIsLog | src/zeroskip-packed.c:420-446 | what stands before the pointers is a good log of the rows that ends with a commit |
| PackedLog.VerifyRecords | src/zeroskip-packed.c:441-446 | the verifier accepts the short commit right before the pointers, of any packed file, written from a tree or from packed files |
| PackedLog.PackAndReplay | src/zeroskip-packed.c:384-473 | a packed file up to its pointers, read like an active one, gives the rows of the tree one by one |
| Packed.GetOffsetToPointers | src/zeroskip-packed.c:70-131 | from the last word, in one or two steps: where the pointers start, the stored CRC and where the final commit starts, on both sides of the switch to 24 bytes |
| Packed.PointersCrc | src/zeroskip-packed.c:289-333 | the CRC computed while opening is the one the writer stored, short and long |
| Packed.ReadPointers | src/zeroskip-packed.c:133-157 | recovers exactly the vector written |
| Packed.Open | src/zeroskip-packed.c:218-359 | opens a written file if and only if it is longer than a header and the stored CRC is that of its pointers, and then with its exact index |
| Packed.OpenChanged | src/zeroskip-packed.c:289-345 | a file that opens does not as soon as one byte of its pointers has become another |
| Packed.OpenTail | src/zeroskip-packed.c:218-359 | whatever the pointers are, a file opens if and only if the stored CRC is theirs |
| Packed.FileIndexed | src/zeroskip-packed.c:384-473 | every pointer of a written file leads to the record of its row |
| Packed.BsearchIndex | src/zeroskip-packed.c:558-615 | found exactly when the key is there; the location is the key's place or that of the first greater key; a live key gives its exact value |
| Packed.GetKeyFromOffset | src/zeroskip-packed.c:475-504 | reads a record's key and whether it is a deletion |
| Packed.PackAndSearch | src/zeroskip-packed.c:384-615 | packing a tree, opening the file and searching it agrees with the tree as a map |
| Begin.BeginAll | src/zeroskip-iterator.c:534-577 | every file becomes a source with its keys and deletions, read through its pointers; the first record's mark is taken only when asked for |
| Begin.BeginDb | src/zeroskip-iterator.c:356-430 | fails if and only if finalised files were loaded that have no row; otherwise the sources are the packed files, then the finalised tree, then the active tree, at rising priorities, each with the keys and deletions that its cursor passes |
| Begin.TierWins | src/zeroskip-iterator.c:356-430 | whatever is handed out for a key in the active tree comes from there, and for any other key in the finalised tree from there |
| Begin.TreesWin | src/zeroskip-iterator.c:356-430 | and every such key is handed out |
| Begin.RunDb | src/zeroskip.c:1299-1327 | iterating over a whole database: all of that, in ascending order, and shown is what came unmarked, unless it cannot begin |
| Begin.DbShowsLive | src/zeroskip.c:1735-1743 | exactly the deletions are left out if and only if no packed file has, after a deletion, a live key that neither a tree nor a better file holds |
| Dump.ShownIsLive | src/zeroskip.c:1299-1327 | without packed files exactly the live keys of the two trees together are shown, in ascending order, each from the tree with the row that counts |
| Dump.DumpDb | src/zeroskip.c:1299-1327 | so a session shows exactly its live rows, or fails if and only if finalised files were loaded that have no row |
| Dump.RunAndDump | src/zeroskip.c:863-1327 | after any run on a new database iterating over it shows exactly the live rows that the reference run leaves |
| Dump.FinalisedEmpty | src/zeroskip-iterator.c:406-416 | concrete failure: a new database that is finalised, closed and opened cannot be iterated over |
| RowSizes.TotalDistinct | src/zeroskip-packed.c:617-742 | different records that are all among others take no more bytes than those |
| Repack.MergedFits | src/zeroskip-packed.c:617-742 | the result fits a file if the records of all inputs do |
| Repack.MarkSkips | src/zeroskip-packed.c:677-681 | a key is skipped if and only if its file has a deletion, other than its first record, up to there |
| Repack.TakenIsMerged | src/zeroskip-packed.c:676-720 | when everything has been handed out, what was taken is, for each key, what a file of the highest priority says, unless that file skips it |
| Repack.MergedUnique | src/zeroskip-packed.c:617-742 | with distinct priorities that determines the result |
| Repack.OverlayIff | src/zeroskip-packed.c:677-681 | its live rows are those of the files overlaid by priority if and only if no file has a winning live row after a deletion other than its first record |
| Repack.RowLost | src/zeroskip-packed.c:677-681 | concrete failure: of two files, one with a deletion between two live rows, the second of these is lost |
| Repack.DeletionStays | src/zeroskip-packed.c:677-681 | a winning deletion is kept if and only if it is the first record of its file |
| Repack.MergeFiles | src/zeroskip-packed.c:676-720 | terminates with that result for any files, deletions included |
| Repack.NewFromPackedFiles | src/zeroskip-packed.c:617-742 | the new file holds it, its keys strictly ascending, and every pointer of its index leads to its record |

## Left out

- memtree_remove, memtree_remove_at, node_combine and node_restore, with the rotations node_move_left and node_move_right that only they use: the store never removes from a tree.
- memtree_memcmp_natural and other custom comparators: keys are compared by the raw order throughout.
- The cursor of a memtree is a value that operations take and return, not a structure they change in place.
- Slots of a node past its count: unset ones hold an arbitrary record or the node itself instead of nothing, and memtree_find does not look at the slot past the last record of a leaf when nothing was found, which the source reads but does not use.
- Counters of 32 bits (records in a tree, entries in a table) and offsets of 64 bits are unbounded, except where a width is written out.
- Freeing memory, allocation failure and action callbacks: a walk returns the records it visits.
- Merge.Iterator.Begin: takes the keys of a source as a sequence, read when iteration begins, where the source reads each when it gets there; the pointers in the iterator's data vector are modelled as positions.
- Merge.Iterator.Run: does not say which of several sources of one priority a key comes from; the database gives its sources different ones.
- IterTable.IterTable.Remove: says nothing about the empty key, which the database does not accept.
- zs_iterator_begin_at_key, zsdb_fetchnext and zsdb_forone: they read past the last record of a source when the key lies beyond it.
- zsdb_fetch, and the prefix, the predicate and the callback of zsdb_foreach.
- HTable.HTable.Put: follows the source in rehashing on the shrink mark; when tables ought to grow is not part of this model, nor are htable_get_next and htable_replace.
- Crc32cTables.Lookup: the tables are defined by the recurrence that generates them; the constants in the source are not compared with it, and neither are those of the zeros operator.
- Crc32cFast.Crc32q: the crc32b and crc32q instructions are byte steps; the inline assembly and the choice between the versions are not part of this model.
- Record.RecordRead: does not cover long commits, whose verification takes the length itself for an address; a log with one is written (`Db.Db.Commit`), but reading it is not modelled.
- Record.ReadAndVerifyCommit: covers the short form, for the same reason.
- Record.ReadKeyValFromOffset: a value that was not read is a missing value; the source leaves the length as it was.
- Packed.BsearchIndex: says nothing about the value of a deleted key, because the source leaves the caller's length as it was.
- Reading past the end of a torn or corrupted file: readers are given files that writers produced, possibly with wrong CRCs.
- Begin.BeginDb: a source without a first record is an outcome of its own; that the program then follows a pointer that is not set is not modelled further.
- Db.Db.Reload: finds the finalised files in the order of their indexes, which `Finalised.Load` establishes for any directory; packed files are opened by `Packed.Open`.
- Db.Db.Abort: covers what can be read back, since reloading anything else does not end (`Session.ReplayEnds`, `Active.ForeachRounds`); a database with nothing to abort is covered as a step that changes nothing; locks and the check of the metadata file against other processes are not.
- Db.Run: covers runs up to an abort or a reopening that would not end; `Db.Do` and `Db.Db.Reload` cover the same files.
- The metadata file's good offset and index are fields of the session; writing and reading that file, its UUID, and the bytes of headers are not part of this model.
- Finalised.Load: covers the order of finalised files; reading the directory, parsing names and validating headers are not part of this model, and priorities are given with the files.
- Natural.NaturalStrcasecmp: covers strings without null pointers; letters outside ASCII are left as they are by lower-casing.
- Packed.NewFromMemtree: the tree is walked first and the records are then written, where the source writes each record in the walk's callback.
- Packed.PackAndSearch: covers trees without deletions of keys of more than 65535 bytes; a search takes the key of such a record for the empty key, and an assertion of the iterator fails on it.
- Repack.NewFromPackedFiles: files must be non-empty, and what they hold must fit a file; the rows are collected before they are written, where the source writes each as it is handed out.
- Mapping files, stat, fsync, rename, lock files, signals, logging, the command-line tools, cstring, strarray, vecu64 and list.h.
