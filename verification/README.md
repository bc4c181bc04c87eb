# LazyDB, modelled and proved

LazyDB is a Bitcask-style store: an append-only log of encoded entries in numbered files, an in-memory index from
key to (fid, offset), replay of the log on open, compaction by `Merge`, and a small on-disk table of dead bytes
per file that chooses what to compact. This project models that core in Dafny and proves, for all inputs and all
runs, that the index, the log, the table and the plain data they stand for stay in agreement. Check it with
`dafny verify dfyconfig.toml`.

How the files build on each other:

- **Codec.** `Bytes`, `Varint`, `Crc32`, `LogEntry` define varints, checksum and entry format; `LogEntryIO` holds
  the encoding loops; `LogFile` is about many entries in one zero-filled file. `Residue` and `Formats` say in literal bytes which
  checksum and which formats these are.
- **Discard table.** `Ledger` is the 682-slot table on records with its operations, `Reloading` what a rescan finds after any
  run of them, `Discard` the class over the 8192 bytes, each method equal to its operation.
- **String store.** `Store` is the state machine: files of entries, active fid, index, discard table, discard
  queue; its steps are the string commands, rollover, queue drain, merge and reopen, with the clock as a parameter.
  `StoreLog`, `MergeSteps`, `Refinement`, `MergeReads` and `Recovery` prove what single steps keep; `Runs`, `Layout`,
  `Conservation`, `Registration`, `Restarts`, `Folding`, `Counters` and `Answers` prove it for whole histories, which ask nothing of
  an event but that commands write what the format can hold. `Answers` states each command by what Get answers before and after. `Limits` holds concrete histories on which a stronger promise fails.
- **Imperative layer.** `LazyDB` has the classes for a log file and the database, with the loops of `db.go`,
  `index.go` and `str.go`; every method equals its step of `Store`. `Sorting` is the sort they use.
- **Other types.** `CompoundKey` and `HashDb` (hashes, against a map of maps), `ListDb` and `Lists` (lists over their log, against
  one sequence per key), `SetDb` (sets), `ConcurrentMap` (the sharded map, against one flat map).
- **Transactions.** `Alike` shows that logs that differ in transaction flags read the same, `TxWorkers` has the buffers and
  the two commit workers, `Transactions` the lock protocol, `Serializable` the results over all interleavings
  without two writing commits at once. `TxMix` and `TxOverlap` say exactly when overlapping commits are serial too, and
  `TxRestart` when a restart keeps what they wrote.

Notions that run through the results. *Storable*: the header fits its 25 bytes and the entry is not mistaken
for the end of the log; `LogEntry.HeaderFits` derives the first from what the writers produce, and a non-empty key gives the
second. *Room*: an entry starts at least 25 bytes before the end of its file, because `ReadLogEntry` always reads a full
header. Entries of 25 bytes or more always have room. The theorems about histories do not ask for it; those about reads say what
happens without it. *Gone*: a merge drops an entry in the very second it expires while reads still accept it, so a read can miss a
cell that is visible to it only if the cell's time was up at a merge. *Recoverable*: a replay of the whole log would rebuild
the live index, for one key or for all. Two things break it: a merge that drops an entry which hides an older version of its key,
and two overlapping commits that both set the key.

Where code and documentation disagree, the model follows the code: the layout comment at logfile/log_entry.go:29 adds the
header up to 38 bytes while the buffer has 25, and db_test.go:314-315 asserts that a decoded key differs from the original
while `decodeKey` returns it unchanged.

## Model

| member | source | states |
|---|---|---|
| Varint.VarintRoundTrip | logfile/log_entry.go:57-66 | reading a written int64 gives it back and consumes exactly its bytes, whatever follows |
| Varint.VarintsRoundTrip | logfile/log_entry.go:89-104 | the same for any number of integers read one after the other from an offset |
| Varint.VarintInjective | logfile/log_entry.go:57-66 | no written integer is a proper prefix of another: equal byte strings hold equal integers and equal rests |
| Varint.UvarintLength | logfile/log_entry.go:28-32 | a number takes at most n bytes if and only if it is below 128^n |
| Varint.VarintFormat | logfile/log_entry.go:57-66 | the bytes: seven bits a byte, lowest first, each but the last with its high bit set, of twice the number or of the odd number below twice its absolute value |
| Crc32.UpdateAppend | logfile/log_entry.go:117-119 | updating a checksum with two pieces in turn is updating it with their concatenation |
| Crc32.SingleByteDetected | logfile/log_entry.go:75-76 | changing any single byte of any data changes its CRC-32 |
| Residue.ResidueIff | logfile/log_entry.go:75-76 | four bytes behind any data leave the residue 0x2144DF1C of the IEEE CRC-32 if and only if they are its checksum, least significant byte first |
| LogEntry.HeaderRoundTrip | logfile/log_entry.go:81-107 | decodeHeader gives back every field that EncodeEntry wrote, whatever follows the header |
| LogEntry.SplitCrcAgrees | logfile/log_entry.go:110-121 | the checksum in three pieces equals the one-shot checksum of EncodeEntry |
| LogEntry.HeaderFits | logfile/log_entry.go:28-66 | without a transaction id, with a flag of at most 2 and an expiry within 2^55 seconds the header fits 25 bytes |
| LogEntry.HeaderOverflows | logfile/log_entry.go:28-66 | that bound on the expiry is tight: beyond it, long keys and values overflow the 25 bytes |
| LogEntryIO.PutVarintAt | logfile/log_entry.go:57-58 | the byte loop writes exactly the varint at the offset, reports its length and changes nothing before it |
| LogEntryIO.PutVarintsAt | logfile/log_entry.go:56-66 | the five integers end up back to back behind what was there |
| LogEntryIO.EncodeHeader | logfile/log_entry.go:52-66 | the buffer holds status and fields, and the offset is the header length |
| LogEntryIO.EncodeEntry | logfile/log_entry.go:48-78 | the array returned is checksum, header, key and value of the entry, and the size is its length |
| Formats.EntryLayout | logfile/log_entry.go:48-78 | checksum of the rest, status, expiry, transaction id, transaction status, key length, value length, key, value, in this order |
| Formats.ShortEntries | logfile/log_entry.go:48-78 | every byte behind the checksum of what Set, Delete and a commit write for short keys and values |
| Formats.CountersEntry | list.go:312-323 | every byte behind the checksum of what saveLMeta writes for a short key |
| Formats.CompoundLayout | db.go:656-670 | both lengths as varints, then key and field |
| Formats.ListLayout | list.go:298-330 | a cell is under the four bytes of its number, least significant first, and the list key; a new list counts from 2^31 - 1 and 2^31 |
| Formats.RecordLayout | discard.go:41-78 | record n is at 12n: fid, total and dead bytes, four little-endian bytes each |
| LogFile.ReadsBack | logfile/log_file.go:116-145 | a stored entry with room reads back as exactly itself, with its exact size |
| LogFile.ReadAtBoundary | logfile/log_file.go:116-145 | reading where an entry of a file starts gives that entry, or EOF if and only if a full header does not fit |
| LogFile.TruncatedReads | logfile/log_file.go:116-136 | a file that was cut anywhere inside an entry gives EOF there |
| LogFile.CorruptionDetected | logfile/log_file.go:140-143 | one changed byte of a stored entry is reported as an invalid checksum: in checksum, status, key or value, and in the header integers if the lengths they decode to are kept |
| LogFile.Framing | logfile/log_file.go:116-145 | scanning any entries followed by zeros yields those entries at their write offsets, up to the first without room, and says how it stopped |
| LogFile.ScanCompleteIffRoomed | logfile/log_file.go:116-126 | the scan finds all entries if and only if each has room for a full header |
| LogFile.LargeEntriesRoomed | logfile/log_file.go:117-122 | entries of 25 bytes or more always have room |
| LogFile.WriteAppends | logfile/log_file.go:148-162 | writing the encoded entry at the write offset turns the file of some entries into the file of one more |
| LogFile.EntriesDisjoint | logfile/log_file.go:148-162 | entries lie within the used part and never overlap |
| Refinement.GetRefines | index.go:112-138 | at any time Get finds exactly what the plain map shows for the key, given room; a visible key without room gives a read error, and only a cell whose time was up at a merge can have lost its file |
| Refinement.ExecuteRefines | str.go:22-343 | each string command answers as on the plain map and changes the store as it changes the map, or fails on reading the old value and changes nothing |
| Refinement.PutRefines | index.go:140-162 | a write with its index update sets one cell of the plain map, through rollovers |
| Refinement.RemoveRefines | str.go:132-154 | Delete removes the key from the plain map |
| Refinement.MergeRefines | db.go:370-445 | merging any file keeps the plain map refined, even when rewriting rolls the active file; only keys go that had no room in that file and could not be read before |
| MergeSteps.MergeLoopIndex | db.go:392-427 | the merge loop moves exactly the keys it rewrites out of the file and leaves every other index node alone |
| MergeSteps.MergeSendsNothing | db.go:255-263 | a merge queues no discard for what it rewrites, and leaves an active file in any case |
| MergeReads.LoopLands | db.go:392-427 | where a rewritten entry lands follows from the index and the active file before the merge, and no file changes its length afterwards |
| MergeReads.MergeKeepsRead | db.go:370-445 | a successful read survives a merge if and only if its entry is in another file, or is rewritten and lands where a full header can be read |
| Recovery.ExecuteDurable | index.go:55-110 | every command keeps every recoverable key recoverable: a replay of the files would rebuild exactly its live node |
| Recovery.DropFileDurable | db.go:429-441 | deleting a file keeps the store recoverable if and only if the file hides no older version of a key |
| Recovery.MergeDurableKey | db.go:370-445 | a merge keeps a key recoverable if and only if it drops no entry that hides an older version of this key in an older file |
| Recovery.MergeDurableIff | db.go:370-445 | a merge keeps the whole store recoverable if and only if it drops no such entry of any key |
| Recovery.OldestMergeDurable | db.go:370-445 | merging the oldest file always keeps the store recoverable |
| Recovery.ReopenRefines | index.go:15-110 | after any restart the store stands for the last readable entry of each key, all of it readable, and another restart would find the same |
| Recovery.RestartNode | index.go:55-110 | for a recoverable key, a restart rebuilds its live node if and only if its entry has room, and leaves the key without one alone unless some entry of it has no room |
| Recovery.RestartIndexIff | index.go:15-110 | after a restart a key is there if and only if the last of its records that can be read is an entry |
| Recovery.ReopenGet | index.go:55-138 | a restart loses no successful read of a recoverable key; if none of its entries lacks room it changes no answer at any time, except that a failed read of a merged-away file becomes a miss |
| Recovery.RoomedHidesNothing | logfile/log_file.go:117-122 | with room everywhere no entry of any key is hidden from a restart |
| Runs.HistoryGood | db.go:473-523 | every state of every history of commands, drains, merges and restarts stands for its plain map |
| Runs.LiveReads | str.go:37-41 | at every point of every history and at any time Get finds exactly what the plain map shows, given room, and otherwise fails as foreseen |
| Folding.FoldReads | str.go:22-343 | whatever happens to other keys, Get finds exactly what folding the accepted commands leaves visible (last write wins, deletes remove, expired keys are hidden), given room; for a key that no merge strands, that every restart finds readable, or else recoverable with nothing hidden, and that is not read while visible although its time was up at a merge |
| Runs.HistoryDurable | db.go:243-265 | from the start or any restart on, a key stays recoverable under merges that hide no older version of it |
| Runs.RestartReads | db.go:527-581 | at every point after merges that are safe for the key a restart changes no answer for it, so that it does not come back deleted or expired, unless an entry of it had no room; a failed read of a merged-away file becomes a miss |
| Restarts.RestartLosesNothing | db.go:527-581 | at every point of every history, whatever was merged and whatever cannot be read, a restart loses no successful read |
| Restarts.HistoryFound | index.go:55-110 | in every history a replay finds every key whose file is there at the very place that the index names, whatever merges dropped |
| Runs.OldestMergesSafe | db.go:383-391 | in a history that merges only the oldest file every merge is safe for every key |
| Runs.LargeEntriesHaveRoom | logfile/log_file.go:117-122 | with no entry below 25 bytes every entry of every file has room |
| Runs.FailureIff | index.go:112-138 | with room everywhere a read fails, at any time, if and only if the index still names a deleted file for the key under an expiry that is not past; a cell lost that way was past its time at a merge |
| Answers.SetAnswers | str.go:22-34 | after Set, Get finds the value at any time, or cannot read its place |
| Answers.SetEXAnswers | str.go:157-168 | after SetEX, Get finds the value up to and including its second and then nothing |
| Answers.SetNXAnswers | str.go:171-188 | SetNX writes if and only if Get finds nothing, or an empty value under the empty key |
| Answers.AppendAnswers | str.go:255-275 | after Append, Get finds the old value with the argument behind it, or the argument alone if there was none |
| Answers.DeleteAnswers | str.go:132-154 | after Delete, Get finds nothing |
| Answers.GetDelAnswers | str.go:99-130 | GetDel answers with what Get finds, and then there is nothing |
| Answers.IncrByAnswers | str.go:315-343 | the sum of the number that the old text is in decimal and the argument is answered and stored as text; a text that is no number and a sum outside int64 are refused without change |
| Answers.MSetAnswers | str.go:191-211 | each key gets the value of its last pair; no pairs or an odd number of arguments change nothing |
| Answers.BrokenAnswers | str.go:171-188 | a failed read makes SetNX, Append, GetDel and the counter commands fail with that error and without change |
| Answers.ElsewhereAnswers | str.go:22-343 | no command changes what Get answers for a key that it does not name, at any time |
| Answers.SetLasts | index.go:112-138 | along any part of any history that does not write the key again, Get finds exactly the value of Set or SetEX, up to and including its second, given room; its file goes only after a merge at or past that second |
| Answers.AppendsAnswer | str.go:255-275 | along any part of any history where only Append writes a key, Get finds the old text and the accepted arguments joined in order, given room |
| Limits.ShortEntryAtEnd | logfile/log_file.go:117-122 | an entry shorter than a header that ends at the end of its file cannot be read back |
| Limits.DeletedKeyReturns | db.go:403-405 | merging a newer file that holds a tombstone brings the deleted key back after a restart |
| Limits.TombstoneUnread | index.go:83-95 | a tombstone without room is lost at a restart, and the deleted key is back |
| Limits.ExpiringEntryDropped | db.go:406-409 | in the second an entry expires a read finds it, and after a merge in that second the read fails |
| Limits.RoomLost | db.go:255-263 | a short entry that can be read loses its room when a merge rewrites it to the end of the active file |
| Limits.ExpiryForgotten | index.go:20-25 | a restart loses the index expiry: after a merge of the expired key SetNX fails on the missing file, where without the restart the key is a plain miss |
| Layout.HistoryLaidOut | db.go:484-510 | in every history archived fids are below the active one and each file is within the maximum size or holds one oversized entry |
| Layout.FilesOnlyGrow | db.go:473-523 | between any two points of a history files keep what they held, over restarts what could be read of them, and new files have fids above all earlier ones |
| Layout.RestartForgets | index.go:96-99 | a restart keeps the entries of a file if and only if all of them can be read |
| Layout.FidsNotReused | db.go:490-494 | a file that is gone stays gone |
| Conservation.BytesConserved | db.go:639-654 | in every session on a fresh database, for every file, bytes appended = live index nodes + counter + queued, with the counter modulo 2^32 |
| Conservation.CounterExact | discard.go:125-149 | in files below 4 GiB the counter never wraps and the balance is exact |
| Conservation.FullyDead | discard.go:189-230 | a counter equal to the bytes appended means that no index node points at the file |
| Conservation.MergeConserved | db.go:243-265 | merging keeps the balance of every other file, although rewrites send no discard |
| Restarts.RestartCounts | discard.go:81-94 | a restart counts what was queued: the counter of a registered file becomes its count and all queued sizes, modulo 2^32 |
| Restarts.BalancedIff | db.go:206-237 | over the restart of a fully readable store with no unregistered count and files below 4 GiB, all files balance if and only if the log was recoverable |
| Restarts.BytesConservedOver | db.go:639-654 | the bytes of every file balance at every point of every history whose restarts find everything readable, the log recoverable and no unregistered count |
| Registration.HistoryEnrolled | db.go:595-616 | in every history, restarts included, each file has a slot with its fid and the maximum size as total |
| Registration.MergeableIff | db.go:370-391 | at every point of every history Merge works on a file if and only if it is archived and its count is more than the ratio of the maximum file size |
| Registration.MergeEnrolled | db.go:429-441 | after a merge neither the file nor its slot is there |
| Decimal.TextRoundTrip | str.go:323-332 | every int64 survives the trip through its decimal text |
| Decimal.DecimalText | str.go:332-332 | the text ends in the last digit as byte 48 to 57, with the text of the tens before it; a minus sign is byte 45 |
| Decimal.ParseIff | str.go:323-326 | a text is accepted if and only if it is an optional sign and at least one decimal digit with a value in int64, and gives that value |
| Decimal.GuardExact | str.go:327-330 | the overflow test rejects exactly the sums outside int64, and an accepted sum does not wrap |
| Decimal.IncrementExact | str.go:315-343 | one step on a counter text stores the exact sum or, exactly on overflow, nothing |
| Decimal.IncrementedIff | str.go:315-343 | on any text: refused exactly if it is no number or the sum leaves int64, otherwise the sum and its text |
| Decimal.DecrByExact | str.go:288-292 | DecrBy subtracts its argument exactly unless it is the smallest int64, which it adds |
| Counters.CounterStep | str.go:315-343 | within a store, a counter command answers and stores the sum, or rejects exactly on overflow or fails to read, changing nothing |
| Counters.CounterSums | str.go:278-343 | along any part of any history where only counter commands write a key, no merge strands it and each restart finds it readable, or else recoverable with nothing hidden, its text is the decimal of the sum of the accepted increments |
| Answers.CountersAnswer | str.go:278-343 | what Get finds of such a key is the decimal text of that sum, given room |
| Counters.ApplyElsewhere | str.go:191-211 | a command leaves every key alone that it does not name |
| LazyDB.LogHandle.ReadLogEntry | logfile/log_file.go:116-145 | the step-by-step read returns the entry, end of log, EOF or checksum error that the byte-level specification gives |
| LazyDB.LogHandle.Write | logfile/log_file.go:148-162 | the bytes go to the write offset, which moves behind them |
| LazyDB.Database.OpenNew | db.go:595-616 | a new active file appears with its ledger entry, and the old one is archived unchanged |
| LazyDB.Database.WriteLogEntry | db.go:473-523 | rollover and append on bytes equal the write step, and the position returned is where the entry lies |
| LazyDB.Database.PutEntry | index.go:140-162 | index node, old node's size on the queue and log agree with the write step |
| LazyDB.Database.DeleteEntry | str.go:132-154 | tombstone, index and both queued sizes agree with the delete step |
| LazyDB.Database.GetValue | index.go:112-138 | the read through index and file bytes equals the specification at any clock reading |
| LazyDB.Database.Set | str.go:22-34 | equals the command on the state machine |
| LazyDB.Database.Get | str.go:37-41 | equals the read on the state machine |
| LazyDB.Database.SetEX | str.go:157-168 | equals the command on the state machine |
| LazyDB.Database.SetNX | str.go:171-188 | equals the command on the state machine, reply included |
| LazyDB.Database.MSet | str.go:191-211 | the loop over pairs equals the command on the state machine, with an error for no or odd arguments |
| LazyDB.Database.Append | str.go:255-272 | equals the command on the state machine, reply included |
| LazyDB.Database.Delete | str.go:132-154 | equals the command on the state machine |
| LazyDB.Database.GetDel | str.go:99-129 | equals the command on the state machine, reply included |
| LazyDB.Database.IncrDecrBy | str.go:315-343 | equals the command on the state machine, reply included |
| LazyDB.Database.ListenUpdate | discard.go:81-94 | takes one value off the queue and adds it to the counter of its file |
| LazyDB.Database.Close | discard.go:81-94 | all that is queued is counted before the listener ends |
| LazyDB.Database.MergeStr | db.go:243-265 | rewrites the entry exactly if the index points at this place |
| LazyDB.Database.RewriteLive | db.go:392-427 | the merge loop over file bytes terminates and equals the loop of the state machine |
| LazyDB.Database.Merge | db.go:370-445 | the whole merge on file objects equals the merge step, for every fid and ratio |
| LazyDB.Database.ReplayFile | index.go:83-95 | replaying one file's bytes replays exactly the entries that can be read and returns the offset behind the last of them |
| LazyDB.Database.BuildLogFiles | db.go:551-580 | the files on disk become archived ones, the one with the largest fid the active one |
| LazyDB.Database.BuildIndexFromLogFiles | index.go:55-101 | the loop over all files rebuilds the index of what can be read, and sets the write offset behind the last readable entry of the active file |
| LazyDB.Database.Open | db.go:527-581 | opening what a closed database left, readable or not, gives exactly the reopened state |
| Ledger.AllocSound | discard.go:151-162 | allocation keeps the partition of the slots and touches no record; a new fid starts with the count left over in its slot, 0 in a clean table |
| Ledger.SetTotalSound | discard.go:164-187 | registering keeps the partition and every other counter; the file starts with the leftover count |
| Ledger.IncrSound | discard.go:125-149 | counting adds on uint32 to one counter, keeps the partition and every other counter |
| Ledger.ReleasedSound | discard.go:240-261 | giving back a slot blanks it, keeps the partition and every other counter |
| Reloading.AfterSound | discard.go:41-187 | after any run, reloads included, free and located slots partition the 682 slots and no two files share one; without a reload every free slot is all zero |
| Reloading.StepRegistered | discard.go:103-187 | every located file stays registered after a step if and only if counts go to files that have a slot, or no slot is free |
| Reloading.ReloadAfter | discard.go:41-78 | after any run whose counts went to files with a slot, a reload rebuilds exactly the same locations and free slots |
| Reloading.FreshSound | discard.go:41-78 | on a fresh table the scan finds all 682 slots free and zero |
| Reloading.ReloadExact | discard.go:41-78 | rescanning rebuilds the same locations and free slots if and only if every located file is registered |
| Reloading.InheritsIff | discard.go:59-65 | the first file registered after a reload starts at 0 if and only if the highest slot without fid and total holds no count; otherwise it starts with that count |
| Reloading.StaleOwner | discard.go:125-149 | in a table that was clean before, the slots with such counts are those of files counted without being registered |
| Reloading.CountInherited | discard.go:125-187 | file 1 is a candidate and merged; a size of it that is counted after its slot was cleared, then a restart: the next new file starts with that count |
| Reloading.CandidateIff | discard.go:210-222 | a fid is a candidate if and only if it is registered, not active, and its ratio is exceeded |
| Reloading.CandidateZero | discard.go:210-222 | fid 0 is a candidate if and only if the ratio is negative, 0 is not active and some slot has no fid |
| Discard.DiscardTable.constructor | discard.go:41-78 | the scan loop equals the reload of the table that left the file, and keeps its invariant; a zero file gives the fresh table |
| Discard.DiscardTable.Alloc | discard.go:151-162 | equals the operation on records, and fails exactly where the process would exit |
| Discard.DiscardTable.SetTotal | discard.go:164-187 | the bytes written make exactly the operation on records, leftover count included |
| Discard.DiscardTable.IncrDiscard | discard.go:125-149 | the bytes written make exactly the operation on records |
| Discard.DiscardTable.RemoveDiscard | discard.go:103-123 | the bytes written make exactly the operation on records, and nothing for fid 0 |
| Discard.DiscardTable.Clear | discard.go:240-261 | the bytes written make exactly the operation on records, also for a file that had no slot |
| Discard.DiscardTable.GetCCL | discard.go:192-230 | returns exactly the candidates, ascending and each once, for any ratio; with a negative ratio fid 0 may repeat |
| Sorting.Sorted | db.go:558-560 | the elements of a set, each once, in ascending order |
| Sorting.SortAll | discard.go:225-228 | an ascending permutation of a list that may hold a fid more than once |
| CompoundKey.DecodeEncoded | db.go:656-681 | decodeKey gives back key and sub-key for all lengths below 2^32 |
| CompoundKey.EncodedInjective | db.go:656-670 | no two pairs share an encoded key |
| CompoundKey.HeaderFits | db.go:656-660 | the two lengths always fit the 10-byte header |
| CompoundKey.EncodeKey | db.go:656-670 | the buffer filled step by step is the encoded key |
| HashDb.HashDatabase.HSet | hash.go:18-49 | sets the pairs in order in one hash of a map of maps, with an error for odd arguments |
| HashDb.WithPairsExactly | hash.go:18-49 | a field gets the value of its last pair, and a field without a pair stays |
| HashDb.HashDatabase.HDel | hash.go:70-102 | removes the fields from one hash and counts exactly those that were there |
| HashDb.WithoutExactly | hash.go:70-102 | exactly the fields that are not named stay, with their values |
| HashDb.HashDatabase.HGet | hash.go:52-67 | finds exactly the value in the map of maps, given room in the log |
| HashDb.HashDatabase.HLen | hash.go:267-275 | the number of fields of the hash |
| HashDb.HashDatabase.MergeHash | db.go:267-291 | the tree its entry was written through exists, and the step equals the merge step of the log |
| HashDb.HashDatabase.Merge | db.go:370-445 | merging any hash file changes no field of any hash; each field that could be read still has its file, and can be read if and only if its entry is in another file or is rewritten to a place with room |
| ListDb.CellKeyRoundTrip | list.go:325-337 | decodeListKey gives back key and sequence number |
| ListDb.CellKeysDiffer | list.go:325-330 | cells of different numbers never collide with each other or with the counters' key |
| ListDb.MetaRoundTrip | list.go:298-323 | the counters saved are the counters read |
| ListDb.Deque | list.go:217-296 | a push on the left goes in front and one on the right behind; a pop takes from the same end and undoes a push there |
| ListDb.PushedInOrder | list.go:9-25 | several arguments end up in order behind the list, or in reverse in front of it |
| ListDb.PushHolds | list.go:269-296 | a push extends the sequence at its end, given fewer than 2^31 pushes since the list was empty |
| ListDb.PopHolds | list.go:217-267 | a pop reads the end of the sequence and leaves the rest, whatever stale cells there are |
| ListDb.PushReadableIff | list.go:269-296 | after a push LIndex can read position 0 if and only if the counter that moved did not wrap |
| ListDb.SequenceSelects | list.go:339-346 | the wrapping arithmetic and range test accept an index if and only if its alias modulo 2^32 is a position, and select it |
| ListDb.NoAlias | list.go:339-346 | an index is its own alias exactly from -2^32 up to 2^32 - 1 |
| ListDb.AliasAccepted | list.go:339-346 | index 2^32, which is out of range, is accepted by every non-empty list |
| ListDb.BoundExact | list.go:169-176 | a bound of LRange is the position meant if and only if its sequence number does not wrap uint32 |
| ListDb.RangeIsSlice | list.go:169-185 | for all bounds the tests and the clamping of LRange are those of a clamped slice between the positions counted, refused exactly when it is empty |
| Lists.TreeRead | index.go:112-138 | reading through a list's tree gives the stored value, a miss, or an error exactly when the entry has no room |
| Lists.PushList | list.go:269-296 | the two log writes of push turn the tree of a list into that of the longer list, given fewer than 2^31 pushes since it was empty |
| Lists.PopList | list.go:217-255 | the log writes of pop turn the tree of a list into that of the rest |
| Lists.FirstPushRoom | list.go:312-323 | in a file that a first push fills exactly, the counters can be read back if and only if their entry is as long as a full header |
| Lists.WritePush | list.go:275-295 | cell and counters are written and indexed one after the other |
| Lists.WritePop | list.go:229-253 | tombstone and counters are written, the counters indexed |
| Lists.ReadCells | list.go:186-193 | the loop collects exactly that part of the sequence, or fails if some cell of it has no room |
| Lists.ListDatabase.Push | list.go:269-296 | one list grows by one element at one end and the others stay; fails without change exactly when the counters cannot be read |
| Lists.ListDatabase.PushAll | list.go:9-25 | the arguments are pushed in order up to the first failure |
| Lists.ListDatabase.Pop | list.go:217-267 | returns and removes the end of the list, the tree going exactly when the list becomes empty; without change it fails on unreadable counters and answers nil on an unreadable cell; whether other lists' counters can be read stays |
| Lists.ListDatabase.LMove | list.go:197-215 | pops from one list and pushes to another or the same; the element is lost if and only if the destination's counters could not be read before the call, or for the same list if the pop writes them to a place without room |
| Lists.ListDatabase.LLen | list.go:143-156 | the length of the list, 0 without a tree or with unreadable counters |
| Lists.ListDatabase.LIndex | list.go:120-141 | the element at the index's position, or the right error |
| Lists.ListDatabase.LSet | list.go:95-118 | replaces the element at the index's position, or the right error and no change |
| Lists.ListDatabase.LRange | list.go:158-195 | for all bounds the clamped slice between the positions counted, an error exactly when it is empty or cannot be read |
| Lists.ListDatabase.LongEntriesRead | list.go:298-310 | keys of 7 bytes or more keep their counters readable, and elements that make their entry 25 bytes long are readable |
| SetDb.AddMember | set.go:11-44 | SAdd adds exactly its non-empty members, and only to its key |
| SetDb.SetDatabase.SAdd | set.go:11-44 | the loop over members equals the specified state, log included |
| SetDb.SetDatabase.SIsMember | set.go:47-65 | membership as specified, false without a tree |
| Alike.MarkedAlike | tx.go:159-160 | an entry with the committed flag has the size of the entry without it |
| Alike.GetAlike | index.go:112-138 | stores whose logs differ in transaction flags only answer every read alike |
| Alike.PutAlike | index.go:140-162 | writing an entry with or without the flag keeps two such stores alike, node for node |
| TxWorkers.Transaction.Set | tx_str.go:7-10 | one entry is appended to the pending strings, and nothing else changes |
| TxWorkers.Transaction.SAdd | tx_set.go:8-29 | the non-empty members are appended to the pending set, and the shared index gains a tree for the key at once |
| TxWorkers.WriteStrings | tx.go:156-163 | the string worker's loop equals its moves run to the end |
| TxWorkers.WriteMembers | tx.go:183-197 | the set worker's loop equals its moves run to the end |
| TxWorkers.StrStepFinish | tx.go:156-163 | no single move of the string worker changes where its work ends |
| TxWorkers.SetStepFinish | tx.go:183-197 | no single move of the set worker changes where its work ends |
| TxWorkers.BufferAlike | tx.go:140-206 | writing out a transaction's buffers is like making its calls directly, in program order |
| Transactions.NextLock | tx.go:79-138 | every step keeps the lock held exactly by the open transactions, and a writer alone |
| Transactions.NextTxs | tx_set.go:8-29 | every step keeps each buffer that of the calls made, with a tree for every pending member |
| Serializable.Isolation | tx.go:79-138 | in every run an open RWTX is the only open transaction, each transaction unlocks once, and no unlock is fatal before the database is closed |
| Serializable.BeginOnClosed | tx.go:99-112 | Begin on a closed database is fatal if and only if no transaction of that kind holds the lock |
| Serializable.ClosedStays | tx.go:114-150 | once the database is closed no transaction begins, commits or gives its lock back, and the strings stay as they are |
| Serializable.CommittedReads | tx.go:140-221 | in every run and interleaving without two writing commits at once, for both kinds of transactions, Get and SIsMember answer as if the committed calls had been made one by one |
| Serializable.CommittedAnswers | tx.go:140-221 | in plain terms and at any time: Get shows the last committed write and SIsMember all committed members, besides what was there before |
| Serializable.FreshAnswers | tx.go:140-221 | from a new database on, Get finds exactly the last committed value of a key and SIsMember exactly the committed members |
| Serializable.RollbackUnseen | tx.go:114-138 | in every run, overlapping commits included: between two points with the same commits, none under way at the later one, no answer differs, whatever was buffered and rolled back |
| Serializable.WritersGuarded | tx.go:79-93 | runs in which only RWTX transactions make calls never have two writing commits under way at once |
| TxMix.ReadersCanMix | tx.go:140-221 | any two RTX transactions that set two keys to different last values have a run of the lock protocol whose commits overlap and leave one value of each, as no order of the two does |
| TxOverlap.RunApplied | tx.go:140-221 | in every run and every overlap the strings stand for the entries in the order in which they reached the index, and each transaction has put a prefix of its buffer there, in its own order |
| TxOverlap.KeyCommitted | tx.go:140-221 | in every run, once no commit is under way, each key has the last value that one of the committed transactions gives it, or its old cell if none sets it |
| TxOverlap.OverlapSerial | tx.go:140-221 | two commits that overlap in any way, without two keys that they set to different last values, end like one of the two orders |
| TxOverlap.SerialIff | tx.go:140-221 | every run in which two transactions commit ends like one of the two orders, if and only if they do not set two keys to different last values |
| TxOverlap.MembersUnion | tx.go:183-197 | in every run, once no commit is under way, SIsMember answers with the union of what was there and all committed members, whatever overlapped |
| TxRestart.CommittedRestart | index.go:55-110 | after every run without two writing commits at once a replay of the log rebuilds exactly the live index |
| TxRestart.UncontendedRestart | tx.go:156-163 | in every run a key stays recoverable if no two commits that have yet to set it are ever under way at once |
| TxRestart.RestartFlips | tx.go:156-163 | any two RTX transactions that set a shared key have a run of the lock protocol that leaves the index at the last entry of the one and the log ending with that of the other, so that a restart flips the value |
| TxRestart.RecoverableIff | tx.go:140-221 | a key is recoverable after every run in which two transactions commit, if and only if they do not both set it |
| ConcurrentMap.OwnShardOnly | ds/concurrent_map.go:95-97 | a key is in its own shard if it is in the map, and in no other |
| ConcurrentMap.BelongingGrows | ds/concurrent_map.go:148-154 | one more shard adds exactly its own number of distinct keys |
| ConcurrentMap.Sharded.constructor | ds/concurrent_map.go:65-82 | for any requested count the map starts empty with separate shards, and the divisor is the shard total modulo 256 |
| ConcurrentMap.Sharded.Get | ds/concurrent_map.go:118-121 | the lookup in the flat map |
| ConcurrentMap.Sharded.Has | ds/concurrent_map.go:130-133 | membership in the flat map |
| ConcurrentMap.Sharded.Set | ds/concurrent_map.go:124-127 | the update of the flat map, with every key still in its own shard |
| ConcurrentMap.Sharded.Remove | ds/concurrent_map.go:136-139 | the removal from the flat map |
| ConcurrentMap.Sharded.Pop | ds/concurrent_map.go:142-145 | the value and the removal from the flat map |
| ConcurrentMap.Sharded.Size | ds/concurrent_map.go:148-154 | the number of distinct keys |

## Left out

- Operating-system I/O (iocontroller, mmap, util/file.go): a file is a byte sequence whose short read is EOF, whose write past the end extends it and whose new bytes are zero; every call succeeds.
- Bounds that the code does not check: fids, offsets and file lengths stay below 2^32, and the discard channel never fills up. A history ends where the process would exit for lack of a free slot in the discard table; other exits through `log.Fatalf` are not modelled.
- Goroutines: every command and every listener update is one atomic step. Commit is finer: each worker's log write and index update are separate steps.
- Transactions and their lock are modelled on values, as a state machine, because interleavings are the point; only the calls and the worker loops have imperative form. Commands made directly on the database while a commit runs, a second Commit of one transaction by another goroutine, and closing the database during a commit are outside the model.
- Transactions.NextTxs: the list, hash and sorted-set workers are not modelled, because nothing ever fills their buffers.
- Crash atomicity of transactions: replay ignores the transaction flag, so there is no such promise to prove.
- Hashes, lists and sets run on the state machine of module `Store` and its log of entries, not on file bytes; sets keep log positions but no reads of members.
- Recovery of hashes, lists, sets and sorted sets, and merge of sets and lists: the code does not complete them (index.go:32-53, db.go:293-368).
- Sorted sets, and the radix tree's and skip list's own code: the tree is a map whose put returns the old value.
- Member hashing: a function, without collisions where membership is claimed.
- Scan, TTL, Expire, Persist, GetRange, MGet, MSetNX, StrLen, Count, LPushX, RPushX, the other hash and set commands: they would add easy members.
- LazyDB.Database.Merge: the class holds the discard table as the records of module `Ledger`; the byte form is the class in module `Discard`, whose methods are proved equal to the same operations.
- Restarts.BytesConservedOver: a restart after a count for a file without a registered slot is excluded, because a new file can then start with a leftover count, which the table in `Store` carries and `Reloading.InheritsIff` pins down; `BalancedIff` says when the rest holds.
- Lists.ListDatabase.Push: needs fewer than 2^31 pushes since the list was empty; `ListDb.PushReadableIff` shows what happens at the wrap.
- Discard.DiscardTable.GetCCL: the float64 ratio is a real.
- LogFile.CorruptionDetected: damage to a header integer that changes a decoded length is not covered, because it changes where the entry ends.
