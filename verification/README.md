# Models and proofs for grocksdb's own logic

grocksdb is a Go binding over RocksDB. Most of it forwards calls to C; the parts below carry logic of their own, and
this project models them and proves what their callers rely on. `dafny verify dfyconfig.toml` checks everything.

| file | what it models |
|---|---|
| `bits.dfy`, `runtime.dfy` | machine words and shifts on numbers; Go's nil slices and run-time panics |
| `varint.dfy` | unsigned LEB128 (section 7.6 of DWARF version 5), limited to 64 bits, as Go reads it |
| `records.dfy`, `write_batch.dfy` | the write-batch record format; `WriteBatchIterator` as a class that eats its buffer |
| `write_batch_tags.dfy` | the record format as a table of tag numbers, independent of the layouts that the code of the model uses |
| `write_batch_grammar.dfy`, `write_batch_codec.dfy` | one call against the grammar; whole batches, their encoder, and how the two undo each other |
| `cow.dfy`, `cow_machine.dfy`, `atomic_list.dfy`, `cow_theorems.dfy` | `COWList` as a class, as small steps of any number of threads, the atomic list it implements, and linearizability |
| `registries.dfy` | the four callback registries built on `COWList` |
| `merge.dfy` | the merge callbacks, and compaction as a schedule of partial merges |
| `comparator.dfy` | the timestamped-key comparator and a store read at a timestamp |
| `tombstones.dfy`, `tombstone_cursor.dfy` | the range-tombstone list, its iterator, and the iterator shared by goroutines |
| `c_heap.dfy`, `slices.dfy`, `multi_get.dfy` | C allocations as a ledger; `Slice` ownership; `DB.MultiGet` |

How the layers fit together:

* A method of a class is proved equal to a function on values (`Step`, `ReadSlice`, `Freed`, `PartialAnswer`), and the
  lemmas are about that function. `Step` is driven by a table of record layouts, while `WriteBatchIterator.Next` has
  the branches of the original. Which tag carries which fields is stated once more in plain numbers
  (`write_batch_tags.dfy`), and what the specification functions of the other parts mean is stated without them: the
  partial-merge answer call by call (`Merge.Answers`), the tombstone list by place (`Tombstones.Enumerates`), a freed
  list slice by slice (`Slices.FreedFirst`), timestamps byte by byte (`Comparator.HighByteFirst`, `NewerBytesFirst`).
* The concurrent parts are schedules of small steps. A step names the statement a thread executes, a run is any
  schedule whose steps can all be taken, and a run shows its callers a history of calls and returns.
  `COWList` is compared with a list on which every call takes effect at one instant (`AtomicList`).
* The ledger counts how often each allocation has been released. A call is described by how the ledger before and
  after it differ.

Points where the code does something a reader may not expect, all kept as they are:

* A length of 2^63 or more becomes negative when `decodeSlice` converts it to `int`, passes the length check, and makes
  the slice expression panic (`StopsExactly`, `BadLengthExample`). The column-family id goes through the same
  conversion and merely wraps, so that the round trip holds for every 64-bit id.
* The fold in the partial-merge callback does not carry a lone operand through: it answers success with an empty value.
  `FoldFaithfulExactly` proves that the fold is faithful for every number of operands except one.
* An unterminated varint of more than ten bytes is malformed, not short; `binary.Uvarint` belongs to Go's standard
  library and is not part of the repository. It is modelled as it is from Go 1.17 on, the version that `go.mod` names.

## Model

| member | source | states |
|---|---|---|
| Varint.Uvarint | write_batch.go:346 | The shift-and-or loop behind `decodeVarint` computes the sum of the 7-bit groups weighted by powers of 128, and answers 0 and a negative count exactly as the specification says. |
| Varint.ReadsVarint | write_batch.go:345-355 | Any terminated encoding of at most ten bytes below 2^64 is read back with its value and length, whatever bytes follow. |
| Varint.AcceptsExactly | write_batch.go:345-355 | Both directions: a positive count is answered exactly when such an encoding starts the buffer, and the value and count are that encoding's. |
| Varint.ShortExactly | write_batch.go:349-350 | The short-buffer answer is given exactly on unterminated buffers of at most ten bytes. |
| Varint.OverflowExactly | write_batch_test.go:94-145 | The malformed answer is given exactly when ten bytes are there and the first ten neither end nor fit in 64 bits. |
| Varint.OrGroup | write_batch.go:346 | Or-ing a shifted group into the word adds it, as long as nothing reaches past bit 63. |
| Varint.EncodeIsShortest | write_batch.go:345-355 | Every terminated encoding of a number is at least as long as the shortest one, and as long only if it is that one. |
| Varint.EncodeFits | write_batch.go:345-355 | The shortest encoding of every 64-bit number is one that the reader accepts. |
| WriteBatch.WriteBatchIterator.NewIterator | write_batch.go:159-165 | The iterator starts behind the 12-byte header, or on an empty buffer if the batch is shorter than 12 bytes, with all fields at their zero values. |
| WriteBatch.WriteBatchIterator.Next | write_batch.go:249-310 | The imperative parser agrees on data, record, error, answer and panic with the table-driven `Step` on every state. |
| WriteBatch.WriteBatchIterator.DecodeSlice | write_batch.go:322-333 | The length, the sticky error, the short-buffer case and the negative length, as `ReadSlice` describes them. |
| WriteBatch.WriteBatchIterator.DecodeRecType | write_batch.go:335-343 | Takes exactly one byte off the front, or reports a short buffer on an empty one. |
| WriteBatch.WriteBatchIterator.DecodeVarint | write_batch.go:345-355 | Uses up the varint, or keeps the data and sets one of the two errors. |
| WriteBatch.ReadAll | write_batch_test.go:77-91 | A caller's loop over a whole batch collects exactly the records, and ends with exactly the error or panic, of the pure `Drain` to which the results below apply. |
| WriteBatchGrammar.StepOnWire | write_batch.go:249-310 | A valid record in front of any bytes is decoded to its meaning, and exactly its bytes are used up. |
| WriteBatchGrammar.StepSound | write_batch.go:249-310 | Conversely, whenever `Next` returns true, a valid record stood at the front of the buffer: key and value are disjoint pieces of it, in order. |
| WriteBatchGrammar.AcceptsExactly | write_batch.go:249-310 | The two together: `Next` returns true with a record and a rest if and only if the buffer is a valid record of that meaning followed by that rest. |
| WriteBatchGrammar.StopsExactly | write_batch.go:322-355 | On every buffer: short-buffer error, malformed-varint error and out-of-range slice each happen if and only if the first faulty varint that is due has that very fault, so none masks another. |
| WriteBatchGrammar.FaultByBytes | write_batch.go:322-355 | The three faults of which `StopsExactly` speaks, each both ways in terms of the bytes: malformed, 2^63 or more, and too short, be it the varint or what it announces. |
| WriteBatchGrammar.UnsupportedExactly | write_batch.go:305-307 | The unsupported-type error is set if and only if the tag has no layout. |
| WriteBatchTags.NextReads | write_batch.go:261-304 | By tag number, for all encodings and any bytes behind: a column family id is read exactly for 0x4-0x6, 0x8, 0xE and 0x10, a key exactly for 0x0-0x2, 0x4-0x8 and 0xE-0x11, a value exactly for 0x1-0x3, 0x5-0x6, 0xA-0xC and 0xE-0x11; the record has just these, the id as a signed 64-bit number, and the rest is left. |
| WriteBatchTags.NextReadsOnly | write_batch.go:249-310 | `Next` returns true with a record and a rest if and only if the buffer starts with such parts and the record is theirs. |
| WriteBatchTags.OtherTagsUnsupported | write_batch.go:305-307 | The unsupported-type error is set if and only if the tag is above 0x12; only the tag byte is used up and the record holds nothing but the tag. |
| WriteBatchTags.LeftByBytes | write_batch.go:345-354 | What a failed field leaves: the bytes behind its varint if one starts there, and all of them otherwise. |
| WriteBatchTags.IdFaultLeaves | write_batch.go:269-272 | A fault in the column family id leaves its bytes, a reset record with the tag, and the error that fits the fault. |
| WriteBatchTags.KeyFaultLeaves | write_batch.go:322-333 | A fault in the key leaves an empty key, the id as read and no value; a length that was read is gone, one that was not stays. |
| WriteBatchTags.ValueFaultLeaves | write_batch.go:322-333 | The same for the value, with the id and the key as read. |
| WriteBatchGrammar.BadLengthExample | write_batch.go:322-331 | A concrete deletion record whose length is 2^63 makes `Next` slice out of range. |
| WriteBatchGrammar.StepLeavesSuffix | write_batch.go:249-355 | Whatever the outcome, the data left is a suffix of the data before. |
| WriteBatchGrammar.FalseIsSticky | write_batch.go:249-252 | Once `Next` has returned false, every further call returns false and changes neither data, record nor error. |
| Records.StepShrinks | write_batch.go:249-260 | A call past the guard removes at least one byte, whatever its outcome. |
| WriteBatchCodec.DrainBound | write_batch.go:249-310 | A drain of any buffer makes at most one successful call a byte. |
| WriteBatchCodec.DrainSplits | write_batch.go:249-310 | Every buffer splits into valid records and a rest at which none starts; a drain yields exactly those records and ends as the call at that rest ends. |
| WriteBatchCodec.DrainSound | write_batch.go:249-310 | A drain that ends without an error has used up a sequence of valid records and nothing else. |
| WriteBatchCodec.WiresUnique | write_batch.go:261-304 | A buffer has at most one reading as a sequence of valid records, down to the bytes of each varint. |
| WriteBatchCodec.RoundTrip | write_batch.go:159-355 | Encoding any sequence of well-formed records behind any 12-byte header and calling `Next` until it returns false yields that sequence, no error and no bytes left. |
| WriteBatchCodec.EncodingInjective | write_batch.go:261-304 | Different sequences of records have different encodings. |
| WriteBatchCodec.EncodingPrefixFree | write_batch.go:261-304 | No record's encoding is a proper prefix of another's. |
| WriteBatchCodec.ShortHeader | write_batch.go:161-163 | A batch shorter than its header yields no record and no error. |
| WriteBatchCodec.Canonicalisation | write_batch.go:261-355 | Re-encoding what any accepted buffer decodes to is no longer, drains to the same result, and is the original exactly when every varint in it was minimal. |
| WriteBatchCodec.CutInside | write_batch.go:249-352 | A record cut anywhere strictly inside, with minimal varints or not, makes `Next` return false with the short-buffer error. |
| WriteBatchCodec.Truncation | write_batch.go:249-352 | A batch cut at any byte yields exactly the records that lie wholly before the cut, and the short-buffer error unless the cut is on a record boundary. |
| COW.COWList.constructor | cow.go:18-22 | A new list is empty. |
| COW.COWList.Append | cow.go:25-36 | Publishes a fresh list with the item at the end, returns its index, and leaves the old list, which readers may hold, as it was. |
| COW.COWList.Get | cow.go:39-42 | Returns the item at the index, or panics exactly when the index is out of range. |
| CowMachine.StepKeepsInv | cow.go:25-42 | Every statement of every thread keeps the invariant: one thread inside the lock, a list under construction seen by no reader, the published list complete. |
| CowTheorems.StepRefines | cow.go:25-42 | Each statement is one step of the atomic list or none; the append takes effect at `Store`, the lookup at `Load`. |
| CowTheorems.Linearizable | cow.go:25-42 | Whatever the interleaving, the history that callers see is a history of the atomic list, which ends with the published contents. |
| AtomicList.HistoriesOk | cow.go:8-11 | Every history of the atomic list keeps its answers: one entry a call, answers that agree with the list, no unaccounted index. |
| CowTheorems.IndicesDistinct | cow_test.go:23-41 | No index is returned twice, and each returned index holds the item of the call that returned it. |
| CowTheorems.NoAppendLost | cow_test.go:23-41 | When all threads are idle, the returned indices are exactly 0 to the length of the list. |
| CowTheorems.LookupFindsItem | cow.go:38-42 | A lookup called after an append returned its index answers the very item appended, for ever and without a panic. |
| CowTheorems.FoundWasAppended | cow.go:38-42 | Whatever a lookup answers was the argument of some append. |
| CowTheorems.PublishedForever | cow.go:26-33 | A published list is never written again, and the published lists form a chain of prefixes. |
| CowTheorems.OnlyLockWaits | cow.go:8-11 | Reads never wait; an append waits exactly while another thread holds the lock. |
| CowTheorems.NoDeadlock | cow.go:25-36 | While some call is unfinished, some thread can take its next statement. |
| Registries.ProjectRun | merge_operator.go:104-113 | The registries do not interfere: each one's history is that of its own moves. |
| Registries.TypeAssertionHolds | comparator.go:79-95 | Whatever a callback finds is of the wrapper type of its registry, so that its type assertion does not fail. |
| Registries.CallbackReachesObject | compaction_filter.go:65-82 | A callback that carries the index a registration returned reaches the very object registered, however registrations and callbacks of all four kinds interleave. |
| Merge.ReadOperands | merge_operator.go:121-124 | The loop over the C arrays yields operand i as the first `lens[i]` bytes of buffer i, for every i. |
| Merge.FullMergeCallback | merge_operator.go:116-133 | Answers what the user's `FullMerge` answers on those operands. |
| Merge.PartialMergeCallback | merge_operator.go:136-172 | A `MultiMerger`'s answer is returned whatever else the operator implements; without either interface the answer is failure; a `PartialMerger` on two operands or more is called from the left, each call on the last result and the next operand, and the answer is the last result, or exactly what the first failing call answered; no operand at all panics. |
| Merge.AnswerIsChain | merge_operator.go:151-165 | The same of the callback's specification, which the schedules below use. |
| Merge.ChainUnique | merge_operator.go:154-162 | There is one such chain of calls and one such answer, and it is a success exactly if every call in turn is. |
| Merge.FoldEquivalent | merge_operator.go:154-162 | Under the documented contract, a successful fold stands for all its operands, whatever is merged before and after. |
| Merge.AnswerEquivalent | merge_operator.go:40-53 | So does a successful callback on two operands or more, in either mode. |
| Merge.OfferMeans | merge_operator.go:36-79 | Compaction replaces a group of two or more, wherever it stands, by whatever the callback answers for it if that is a success, and leaves all as it was otherwise. |
| Merge.CompactInTurn | merge_operator.go:36-79 | A schedule offers each of its groups in turn, on what the earlier ones have left. |
| Merge.ScheduleInvariance | merge_operator.go:36-79 | No compaction schedule, of any groups in any order, changes what a full merge answers. |
| Merge.SchedulesAgree | merge_operator.go:36-79 | Any two schedules lead to the same full merge. |
| Merge.ScheduleTerminates | merge_operator.go:36-79 | Every replacement removes an operand and one always remains, so the replacements are fewer than the operands. |
| Merge.FoldFaithfulExactly | merge_operator.go:154-162 | For operators that keep the contract, the fold's successful answers are faithful if and only if the number of operands is not one. |
| Comparator.MarshalTimestamp | db_ts_test.go:139-143 | Fills eight bytes, high byte first: byte i is the digit to base 256 that weighs 256^(7-i); they read back as the timestamp. |
| Comparator.InternalKeyParts | db_ts_test.go:145-159 | User key and timestamp are recovered from an internal key, whatever its last eight bytes. |
| Comparator.CompareMeans | comparator.go:15-17 | Keys are ordered by user key, and equal user keys by descending timestamp. |
| Comparator.CompareTSByBytes | db_ts_test.go:168-178 | The timestamp comparison is -1 or 1 by the first of eight bytes that differs, the smaller byte first, and 0 exactly if none does. |
| Comparator.NewerBytesFirst | db_ts_test.go:180-191 | Of two keys whose user keys compare equal, the one with the larger byte at the first difference of the eight timestamp bytes comes first; without a difference they are equal. |
| Comparator.UserKeyFirst | db_ts_test.go:183-186 | Unless the user keys compare equal, their comparison is the answer. |
| Comparator.CompareLawful | db_ts_test.go:180-191 | If the user's comparison is a total order by sign, so is the comparator on keys of eight bytes or more. |
| Comparator.CompareSeparates | comparator.go:9-13 | If the user's comparison is zero on equal keys only, so is the comparator. |
| Comparator.WithoutTSAgrees | db_ts_test.go:193-208 | For all four has-timestamp flags, it is zero exactly when the user keys are equal, and otherwise has the comparator's sign. |
| Comparator.VersionsContiguous | comparator.go:15-17 | In a sorted sequence the versions of a user key are contiguous, newest first. |
| Comparator.NewestVisible | comparator.go:15-17 | A seek to a key and timestamp lands on the newest version not above that timestamp; if it lands elsewhere, there is no such version. |
| Comparator.StoreSorted | comparator.go:15-17 | Whatever order keys are written in, a store kept by the comparator stays strictly sorted, one entry a user key and timestamp. |
| Comparator.StoreFaithful | comparator.go:15-17 | Such a store holds exactly the keys written, up to the comparison. |
| Comparator.SeekReadsNewest | comparator.go:15-17 | After any history of writes in any order, a seek at a timestamp answers what a scan of the whole history answers: the newest write not above it, or none. |
| Comparator.UserComparesLawful | comparator_ts_test.go:14-20 | The byte-wise comparison and its reverse meet the assumptions of the results above. |
| Comparator.BytesCompareAtDifference | db_ts_test.go:161-165 | The byte-wise comparison goes by the first byte that differs. |
| Comparator.BytesComparePrefix | db_ts_test.go:161-165 | A proper prefix comes first. |
| Tombstones.BuildList | extend_inner.cc:332-365 | The list has the tombstone of every place (level, file, position), each once and in that order, copied from that very position of the file, and its length is the sum of the files' lengths; files without an iterator contribute none; it fails exactly when some file does, with the error of the first such file. |
| Tombstones.FlattensInOrder | extend_inner.cc:332-360 | The same of the flat list that the loops are proved to build. |
| Tombstones.EveryTombstoneListed | extend_inner.cc:332-360 | Every tombstone of every file is in the list, at the position given by its level, file and place. |
| Tombstones.EveryEntryFromFile | extend_inner.cc:332-360 | Every list entry comes from a file, at such a position. |
| Tombstones.RangeTombstoneIterator.NewRangeTombstoneIterator | extend_inner.go:196-201 | Everything in the list is still to be handed out. |
| Tombstones.RangeTombstoneIterator.Next | extend_inner.go:168-189 | Hands out the first of what is left, whole, and says no exactly when nothing is left. |
| TombstoneCursor.StepKeepsInv | extend_inner.go:168-189 | Every statement of every thread keeps the invariant that ties the cursor to the number of calls that got the lock. |
| TombstoneCursor.AnswerByLockOrder | extend_inner.go:168-189 | The k-th call to get the lock returns the k-th tombstone, whole, if there are more than k, and none otherwise. |
| TombstoneCursor.NoneTwice | extend_inner.go:168-189 | Every call gets the lock at most once and returns at most once. |
| TombstoneCursor.ExactlyOnce | extend_inner.go:168-189 | When all calls have returned, every position reached was handed to exactly one call; and if one call was told that there is no more, every position was. |
| TombstoneCursor.IndexInBounds | extend_inner.go:177-188 | Every index used outside the lock is in bounds, and only the lock ever makes a call wait. |
| CHeap.Allocator.CBytes | array.go:46 | A new allocation holds a copy of the bytes, even if there are none. |
| CHeap.Allocator.Free | util.go:75 | Releases a live allocation, once; releasing null does nothing. |
| Slices.Slice.NewSlice | slice.go:26-28 | The slice owns its buffer. |
| Slices.Slice.Borrowed | iterator.go:56-83 | The slice does not own its buffer. |
| Slices.Slice.Data | slice.go:37-43 | The first `size` bytes of the buffer, or nil. |
| Slices.Slice.Free | slice.go:51-57 | Releases an owned buffer and forgets it; does nothing the second time, or to a borrowed one. |
| Slices.Destroy | slice.go:19-23 | Every owning slice ends null and freed, its buffer gone and released once more than before; borrowing slices, other allocations and their release counts are unchanged; and it is the `Destroy` of which `AfterDestroy` speaks. |
| Slices.RunSafe | slice.go:19-57 | Over any run of `Free`, `Data` and `Destroy`, an owned buffer is released at most once and only by its own slice; no other allocation changes. |
| Slices.AfterDestroy | slice.go:19-57 | After `Destroy`, every owning slice reads as nil and its buffer was released exactly once; every borrowing slice still reads what it read before the run. |
| MultiGet.ByteSlicesToCSlices | array.go:38-51 | A new copy and the size of each key, in order; earlier allocations untouched. |
| MultiGet.DestroyChars | array.go:53-57 | Releases each of the copies once. |
| MultiGet.FromCError | util.go:72-78 | Copies the error string and releases it, or does nothing on null. |
| MultiGet.CollectErrors | db.go:734-740 | Collects as many errors as keys failed, the first failing key first, and releases exactly the error strings, once each. |
| MultiGet.WrapValues | db.go:747-750 | Wraps value i in a new slice at position i. |
| MultiGet.MultiGet | db.go:715-754 | On both exits every key copy and every error string has been released exactly once and nothing older is touched; it fails exactly if a key fails, with the number of failing keys and the first of them; otherwise slice i owns exactly the value of key i. |
| MultiGet.ErrorsCollected | db.go:734-744 | An error list collected over all keys is empty exactly if none failed, is as long as the set of failing positions, and starts with the lowest failing index. |
| MultiGet.ErrorsCount | db.go:736-744 | Counting failures key by key gives the size of the set of failing positions. |
| MultiGet.KeysReleased | db.go:742-753 | Releasing the key copies leaves no allocation of the call live but the values. |

## Left out

- WriteBatch.WriteBatchIterator.Next: decoded keys and values are modelled as values; that they alias the batch's buffer is not captured.
- WriteBatch.ReadAll: keeps each record by value, where `Record` hands out a pointer that the next call overwrites.
- Merge.ScheduleInvariance: the user's functions are taken as pure and total, and a nil value as an empty one; compaction is the schedule of its callback calls.
- Merge.PartialMergeCallback: the C array that cgo passes for zero operands is not modelled beyond the panic of indexing it.
- Registries.CallbackReachesObject: what a callback does with the object it reaches, and the C strings that hold the names, are not modelled.
- CowTheorems.Linearizable: `atomic.Value` and the mutex are taken as sequentially consistent, as Go's memory model promises; the copy is modelled item by item.
- COW.COWList.Append: as one goroutine sees it; interleavings are the subject of `CowMachine`.
- Comparator.SeekReadsNewest: the store is an abstract sorted sequence; how RocksDB keeps keys in order is not part of this model.
- Tombstones.BuildList: the reference on the super version, which the error exit does not release, and what the Go side does after an error.
- TombstoneCursor.ExactlyOnce: no concurrent `Close`; the fetched fields are values, so the C copies behind them are not in a ledger.
- MultiGet.MultiGet: on the error exit the values of the other keys are neither wrapped nor released, and the ledger says so (they stay live); no claim is made that someone releases them.
- MultiGet.RocksMultiGet: `rocksdb_multi_get` itself is C code that is not part of this model; its contract is what its callers rely on.
- MultiGet.FromCError: an error string is its bytes, without the terminating zero at which `C.GoString` stops.
- CHeap.Allocator.CBytes: the name of an allocation is not used again after its release, which lets the ledger count releases; allocation does not fail.
- Comparator.MarshalTimestamp: `binary.BigEndian.PutUint64` is written out as the loop over its eight bytes; keys shorter than eight bytes, on which the original panics, are excluded.
- Tombstones.RangeTombstoneIterator.Next: `int` and the C `int` index are unbounded here, so lists of 2^31 tombstones or more are not covered.
- The other `MultiGet` variants in `db.go`, which repeat the one modelled, and everything else there that forwards to C.
- RocksDB's own semantics: transactions, save points, snapshots, compaction picking, `WriteBatchWI`.
- The count and sequence number in the batch header, which the iterator skips.
- `Clone` and the ownership of native handles inside `Options`; `EncodeUint64TS` and the other functions whose behaviour is in C.
- `reflect.SliceHeader` arithmetic, cgo's calling conventions, wall-clock reads, build scripts and enum tables.
