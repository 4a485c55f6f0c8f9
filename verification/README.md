# The storage and ordering core of a Gradido node, modelled in Dafny

A Gradido node reads the messages of a consensus topic, takes them into a chain of confirmed transactions in the order of
their sequence numbers, writes the chain to append-only block files, keeps an index beside every block, and answers
lookups and searches. This project models the parts in which that is hard to get right, and proves what they promise.

| file | models |
|---|---|
| `Numerals.dfy`, `ByteCodec.dfy` | positional numbers in any base, little-endian bytes |
| `Base58.dfy` | `src/lib/base58.c` |
| `Ordering.dfy` | `src/controller/SimpleOrderingManager.cpp` as a transition system, and the class against it |
| `TopicSync.dfy`, `Restart.dfy` | `src/task/SyncTopicOnStartup.cpp`: catching up, and crashes with restarts |
| `BlockFile.dfy` | `src/model/files/Block.cpp`, the hashed append-only log |
| `WriteTasks.dfy` | `src/task/WriteTransactionsToBlockTask.cpp` and `src/controller/TaskObserver.cpp` |
| `WriteBehind.dfy`, `BlockCache.dfy` | `src/cache/Block.cpp`: the invariant of the write-behind lookup on values, and the class |
| `IndexFormat.dfy` | `src/model/files/BlockIndex.cpp` and `.h` over `src/lib/VirtualFile.cpp` |
| `YearMonthIndex.dfy`, `IndexCache.dfy` | `src/cache/BlockIndex.cpp`: the index on values with saving and loading, and the class |
| `SavedBlock.dfy` | when a block can be saved, and when it comes back from its two files or from the block file alone |
| `BlockSearch.dfy`, `LinearSearch.dfy` | the queries of `src/cache/BlockIndex.cpp`, and reading every entry instead |
| `ChainSearch.dfy` | `src/blockchain/FileBased.cpp`, the search across blocks |
| `Dictionary.dfy` | `src/cache/Dictionary.cpp` |
| `Scheduler.dfy` | `src/task/Task.cpp`, `src/task/CPUTask.cpp`, `src/task/CPUSheduler.cpp`, `src/task/CPUShedulerThread.cpp` |

What the source changes in place is a class here, and its methods are proved against functions on values; the laws are
lemmas about those functions, or invariants that every method keeps. `dafny verify dfyconfig.toml` checks everything.

## Assumptions

- A mutex makes what happens under it one step. Timers, sleeps, pauses and wake-ups only decide when a step comes; the
  steps may come in any order the code allows.
- The hash functions, the deserialization of a line, the digest of a string or a running hash, and the set of known
  transaction types are parameters. Deserializing the serialized form of a transaction gives the transaction back.
- `AccessExpireCache` may forget any entry between two calls. Inside `cache::Block::getTransaction` an entry just added
  is still there.
- The mirror node is a list of messages with strictly ascending timestamps. Sequence numbers start at 1, and a finished
  deserialize task has a transaction.
- The write scheduler has one worker, as configured in `config/gradido.yaml`, so write tasks run in the order in which they
  were handed over. Transaction numbers are pushed without gaps and the observer's tasks are those of the block.
- `Pagination`: `skipEntriesCount()` is (page - 1) * size, and there is capacity left while the size is 0 or above the count.
  `iterateRangeInOrder` visits a range in search order until its function says stop. A `TimepointInterval` is the months from
  its start to its end, both included, and none if it starts after its end.
- `date::year` takes 16 bits and `date::month` 8 bits.

## Results that differ from what one would expect

Where a promise does not hold for all inputs, the code is kept as it is and the exact condition is proved.

- `b58tobin` lost the braces of four guards (`src/lib/base58.c:75-101`), so any digit behind the leading '1's is rejected.
  `Base58.Decode` is the decoder with the braces and `Base58.DecodeAsWritten` the one in the file; `AsWrittenAgreesExactly`
  says on which texts they agree. The allocation of the limbs (line 53) also counts bytes instead of words; the model has
  all limbs.
- The branch of `updateSequenceNumber` that resets the number after a topic reset is never taken: `ThreadFunction` drops a
  message numbered 1 as outdated before (`LaterHasGoneOn`, `TopicResetIsDropped`). A message numbered 0 is processed each
  time it comes, if the manager was started at 0, and no other message is (`UnnumberedMessageRepeats`, `ProcessedOnceExactly`).
- The stored sequence number is never ahead of what has been committed, so a restart skips no number that was never
  committed. But a transaction still in memory when the node crashes can come back before the next crash if and only if the
  restart point has not reached it; some are lost exactly if the restart falls back on the stored number and that number has
  reached the first one not on disk (`PassedIsLostExactly`, `CrashLosesExactly`; a run: `TwoMessagesLoseOne`). The stored
  number gets ahead of the one in memory exactly when a restart starts from an older transaction on disk
  (`CrashStaysBehindExactly`; a run: `StoredGetsAhead`).
- A crash between adding a message to the chain and storing its number can bring the chain out of order, and no other crash
  can (`ChainStaysInOrder`, `RestartDisordersExactly`; a run: `UnsavedCrashDisorders`).
- An index file saved before the last append is loaded as it is, and the lines behind it are not known then
  (`ReopenedExactly`). Rebuilding the index gives addresses whose digest leads to another string new indices
  (`LineIsReadExactly`).
- `readLine` refuses lines shorter than 27 bytes, though `appendLines` writes them: a line is read back if and only if it
  has that size (`ReadBack`), the index can be rebuilt if and only if all have it (`RebuildBlockIndex`), and a transaction with
  a shorter line is found only as long as it is in memory (`GetTransaction`).
- The hash of an index file leaves out the transaction types and nothing else: what is hashed is the same for two files exactly
  if they differ in no more than that (`HashedSameExactly`), so exactly these changes go unnoticed (`ChangeIsNoticedExactly`).
- A push between the last append and the saving of the index makes `serialize` throw, which ends the program: the index can
  be saved if and only if no transaction is waiting to be written (`SavableExactly`, `BlockCache.Block.SaveIndex`).
- A search interval that ends before the first month to search yields that month nevertheless, in every block for which
  this holds (`IntervalIsRightExactly`, `EarlyIntervalFindsOneMonth`). So a search of the whole chain in an interval is right if
  and only if this happens in no block (`ChainIsRightExactly`).
- A search for a public key is right if and only if the dictionary holds no index for the key besides the one it reports
  (`KeySearchIsRightExactly`); after a collision it misses entries.
- A page asked of one block may hold more than the page size: one entry for each further month whose first entry matches
  (`PageExactly`). `findAll` cuts this off, but for pages after the first every block skips its own matches (`ChainPage`).
- Two strings with the same digest: the second one gets a new index every time it is asked for (`CollisionNumbersAgain`), and
  reopening sets the last index too low (`ReopenedLastIndexExactly`), so that the next new string takes away an index
  (`ReopenedCollisionLosesIndex`). Resetting the dictionary leaves the lookup in memory behind (`ResetLeavesStaleLookup`);
  the source resets only where opening has failed, and the lookup is empty then.
- A transaction entry refused by the index leaves its cursor behind if the cursor was new and allowed
  (`RefusedLeavesCursorExactly`).

## Model

| member | source | states |
|---|---|---|
| Base58.TablesAreInverse | src/lib/base58.c:28-37 | the decoding map inverts the ordered alphabet, and knows exactly its characters |
| Base58.AlphabetIsBase58 | src/lib/base58.c:164 | the alphabet is all digits and letters but '0', 'I', 'O' and 'l', in ascending order from '1' to 'z' |
| Base58.ScratchSizeSuffices | src/lib/base58.c:176 | 138/100 digits per byte and one more hold every number of n bytes, with the first digit still zero before the last byte |
| Base58.StepFits | src/lib/base58.c:182-194 | before each byte the scratch buffer has room for the next step, so the high-water walk never overflows |
| Base58.MulAddByte | src/lib/base58.c:184-193 | one step multiplies the whole number by 256 and adds the byte although it only walks down to the high-water mark; all digits below are zero |
| Base58.Convert | src/lib/base58.c:176-194 | the digits hold the big-endian number of the bytes |
| Base58.Encode | src/lib/base58.c:166-217 | writes one '1' per leading zero byte, the canonical digits and a terminator exactly if the capacity suffices; else only reports the size needed |
| Base58.EncodeTextExactly | src/lib/base58.c:206-211 | the text of a byte string is the only text of the alphabet with one leading '1' per leading zero byte and with its number |
| Base58.EncodeInjective | src/lib/base58.c:166-217 | different byte strings have different texts |
| Base58.MulAddLimbs | src/lib/base58.c:85-91 | the limbs with the carry hold 58 times the old number plus the digit |
| Base58.GuardsAreRight | src/lib/base58.c:92-101 | the carry and mask tests fire exactly when the number no longer fits the buffer |
| Base58.ReadDigits | src/lib/base58.c:73-102 | the limbs hold the value of the digits read so far; rejects exactly invalid characters and numbers too big |
| Base58.WriteBytes | src/lib/base58.c:104-117 | the buffer holds the big-endian bytes of the number in the limbs, with a shorter first limb |
| Base58.Decode | src/lib/base58.c:44-134 | with braced guards: accepts exactly valid texts whose value fits the width, writes that number and reports its canonical size |
| Base58.DecodeEncode | src/lib/base58.c:44-134 | decoding the text of b into a buffer of length \|b\| gives b and the size \|b\| |
| Base58.DecodeEncodeAnyWidth | src/lib/base58.c:120-128 | decoding the text of b into any width succeeds exactly if the number fits, writes that number and reports the size of b |
| Base58.EncodeDecodeExactly | src/lib/base58.c:120-128 | encoding what a text was decoded to gives the text back if and only if the reported size is the width |
| Base58.DecodeAsWritten | src/lib/base58.c:73-84 | without the braces: only texts of '1's are accepted |
| Base58.AsWrittenAgreesExactly | src/lib/base58.c:73-102 | the decoder in the file agrees with the braced one exactly on texts of '1's and on texts both reject |
| Base58.AsWrittenRejectsTwo | src/lib/base58.c:75-79 | "2" is rejected though it encodes the byte 1 |
| Ordering.SimpleOrderingManager.PushTransaction | src/controller/SimpleOrderingManager.cpp:176-208 | takes a message in unless the cache or the queue has it; inserts it by timestamp behind equal ones |
| Ordering.InsertPlaces | src/controller/SimpleOrderingManager.cpp:201 | a message is put behind those with earlier or the same timestamps and before all others |
| Ordering.PushedAgainIsFound | src/controller/SimpleOrderingManager.cpp:178-198 | a message pushed again is found in the cache, or in the queue once the cache has forgotten it; nothing is pushed after the end |
| Ordering.SimpleOrderingManager.UpdateSequenceNumber | src/controller/SimpleOrderingManager.cpp:222-243 | sets the number if there is none, it is the next one, or 1; else the exception |
| Ordering.SimpleOrderingManager.ProcessTransaction | src/controller/SimpleOrderingManager.cpp:131-174 | the stored number becomes the last one before the message, by outcome |
| Ordering.SimpleOrderingManager.LoopTurn | src/controller/SimpleOrderingManager.cpp:43-126 | a turn of the loop is the step Turn and ends as EndOf says, and the exception in updateSequenceNumber is never met |
| Ordering.TurnProcessesExactly | src/controller/SimpleOrderingManager.cpp:73-126 | a turn that is neither blocked nor outdated processes the first message exactly if it was deserialized and is local or has its pair, commits it unless it waits for its pair or ends the node, and stores the last number as the outcome says |
| Ordering.TurnWaitsOrDrops | src/controller/SimpleOrderingManager.cpp:44-72 | any other turn changes nothing, or drops a message whose number has been passed |
| Ordering.ProcessedExactly | src/controller/SimpleOrderingManager.cpp:114-125 | in every run the processed messages are exactly those of such turns, so none with its pair found is passed over |
| Ordering.SimpleOrderingManager.ThreadFunction | src/controller/SimpleOrderingManager.cpp:39-129 | the loop is a run of turns up to the first one that returns, throws, or finds transactionsCount at 0 |
| Ordering.FrontIsNext | src/controller/SimpleOrderingManager.cpp:50-72 | what passes the checks carries the next number |
| Ordering.NextKeepsSafe | src/controller/SimpleOrderingManager.cpp:39-129 | every step keeps committed numbers sequential and processed messages ascending and pushed |
| Ordering.CommittedInSequence | src/controller/SimpleOrderingManager.cpp:39-129 | in every run from init(k) the committed numbers are exactly k+1, k+2, ..., and no message is processed twice |
| Ordering.OfferedMessagesSurvive | src/controller/SimpleOrderingManager.cpp:176-208 | every message ever offered to a running manager waits in the queue or its number has been passed |
| Ordering.WaitingMeansMissing | src/controller/SimpleOrderingManager.cpp:52-58 | if the loop waits, the message it waits for has never been offered |
| Ordering.UnnumberedMessageRepeats | src/controller/SimpleOrderingManager.cpp:60 | a message numbered 0 that comes n times to a manager started at 0, forgotten in between, is processed n times |
| Ordering.ProcessedOnceExactly | src/controller/SimpleOrderingManager.cpp:60-72 | a message is processed at most once in every run from init(k) if and only if it has a number or k is one |
| Ordering.LaterHasGoneOn | src/controller/SimpleOrderingManager.cpp:222-243 | in every run, from the first number on each commit is that of the next number, so the branch that resets to 1 is never taken, and what is processed has a higher number |
| Ordering.TopicResetIsDropped | src/controller/SimpleOrderingManager.cpp:60-70 | in every run a message pushed with a number that has been passed, like those of a topic that starts again at 1, is not processed after that |
| Restart.NothingLeftOutBelowRestart | src/task/SyncTopicOnStartup.cpp:84-140 | after any run with crashes, and also when the node crashes within a turn, every number up to the restart point has been committed or its message added |
| Restart.StoredStaysBehind | src/controller/SimpleOrderingManager.cpp:152 | in every run from init(k), if the stored number is at most k at first, it never gets ahead of the one in memory |
| Restart.CrashStaysBehindExactly | src/task/SyncTopicOnStartup.cpp:138 | a restart keeps it behind exactly if it does not start from a transaction on disk older than the stored number |
| Restart.StoredGetsAhead | src/task/SyncTopicOnStartup.cpp:47-50 | a run with such a restart: three messages, one on disk, a crash |
| Restart.StoredStaysBehindOverCrashes | src/controller/SimpleOrderingManager.cpp:131-174 | the same over runs with any number of such restarts |
| Restart.ChainHoldsNoneTwice | src/blockchain/FileBased.cpp:223-226 | over any run with crashes anywhere the chain holds no message twice |
| Restart.RestartDisordersExactly | src/task/SyncTopicOnStartup.cpp:89-139 | after a restart the messages of a topic can bring the chain out of order if and only if a number beyond the restart point is missing on disk below one that is there |
| Restart.UnsavedCrashDisorders | src/controller/SimpleOrderingManager.cpp:147-152 | a run that does: a message passed over, and a crash between adding the next one and storing its number |
| Restart.CrashLosesExactly | src/task/SyncTopicOnStartup.cpp:47-50 | some confirmed transaction cannot come back before the next crash if and only if the restart falls back on a stored number that has reached the first one not on disk |
| Restart.PassedIsLostExactly | src/task/SyncTopicOnStartup.cpp:47-50 | a confirmed transaction that was not on disk can come back into the chain before the next crash if and only if the restart point has not reached its number |
| Restart.TwoMessagesLoseOne | src/controller/SimpleOrderingManager.cpp:147-152 | a run that loses one: two messages, nothing on disk, a crash |
| Restart.ChainStaysInOrder | src/controller/SimpleOrderingManager.cpp:147-152 | over any run with crashes between turns, or within a turn once the number is stored, the messages of a topic enter the chain in the order of their numbers |
| TopicSync.SyncTopicOnStartup.LoadTransactionsFromMirrorNode | src/task/SyncTopicOnStartup.cpp:142-163 | terminates, pushes exactly the messages later than the start timestamp, each once and in order, and counts them, also for a multiple of the limit |
| TopicSync.SyncTopicOnStartup.LoadPage | src/task/SyncTopicOnStartup.cpp:151-159 | one page continues where the last one ended |
| TopicSync.CaughtUpNeverWaits | src/task/SyncTopicOnStartup.cpp:50-57 | a node that started at number k and has caught up never waits for a missing message |
| BlockFile.ReadBack | src/model/files/Block.cpp:83-131 | reading at a line's cursor gives the line if and only if it has at least 27 bytes |
| BlockFile.CursorsTile | src/model/files/Block.cpp:177-190 | cursors cut the file into consecutive lines from 0 to its current size |
| BlockFile.OldCursorsStillRead | src/model/files/Block.cpp:154-200 | a cursor handed out earlier still names its line after any later appends |
| BlockFile.Block.constructor | src/model/files/Block.cpp:48-71 | a new object over an existing file has the size kept by the old one |
| BlockFile.Block.GetOpenFile | src/model/files/Block.cpp:48-71 | reopening recomputes the size that was kept in memory |
| BlockFile.Block.ReadLine | src/model/files/Block.cpp:83-131 | the line at a position, or the error, with closed and open stream alike |
| BlockFile.Block.AppendLines | src/model/files/Block.cpp:154-200 | the file holds the old lines, the new ones and the chained hash of all; the cursors are where the new lines start |
| BlockFile.Block.RebuildBlockIndex | src/model/files/Block.cpp:271-312 | whatever the file holds, lines come back only if the bytes behind them are their chained hash; of a file that is all right all lines come back, in file order, if and only if every line can be read |
| BlockFile.FileOfTwoLines | src/model/files/Block.cpp:177-196 | the bytes of a file: two length bytes, low one first, before each line, and the hash chained from 32 zeros at the end |
| WriteTasks.WriteTask.CollectNumbers | src/task/WriteTransactionsToBlockTask.cpp:31-40 | accepts exactly maps without a gap between positive numbers, and lists them in ascending order |
| WriteTasks.WriteTask.WriteLines | src/task/WriteTransactionsToBlockTask.cpp:25-53 | appends the lines in order and gives the index the cursor of each |
| WriteTasks.WriteTask.AddSerializedTransaction | src/task/WriteTransactionsToBlockTask.cpp:64-71 | inserts and files in the index; a number already there keeps its transaction |
| WriteTasks.NewCursorsAreAdded | src/task/WriteTransactionsToBlockTask.cpp:46-53 | cursors of new numbers are all taken and change nothing else, if 0 is only there for the lowest number |
| WriteTasks.RemovingKeepsUnionExactly | src/controller/TaskObserver.cpp:46-61 | removing a task leaves the union of the others exactly if it shares no number with them |
| WriteTasks.TaskObserver.AddBlockWriteTask | src/controller/TaskObserver.cpp:23-34 | registers a task once; the pending map stays the union of the tasks |
| WriteTasks.TaskObserver.RemoveBlockWriteTask | src/controller/TaskObserver.cpp:46-61 | takes out a task and its numbers; the union is kept exactly if numbers are not shared |
| WriteTasks.TaskObserver.GetTransaction | src/controller/TaskObserver.cpp:72-88 | finds a transaction exactly if its number is pending |
| WriteBehind.PushKeeps | src/cache/Block.cpp:104-117 | a push meets no exception of the index and keeps the invariant |
| WriteBehind.HandOverKeeps | src/cache/Block.cpp:209-219 | handing over the open task keeps the invariant |
| WriteBehind.WriteKeeps | src/task/WriteTransactionsToBlockTask.cpp:41-53 | a run of the first waiting task meets no exception and keeps the invariant |
| WriteBehind.NoneIsLost | src/cache/Block.cpp:126-168 | every pushed number is in the file with its cursor, in a waiting task or in the open one |
| BlockCache.Block.PushTransaction | src/cache/Block.cpp:104-117 | the transaction counts as pushed; the invariant holds |
| BlockCache.Block.CallFromTimer | src/cache/Block.cpp:200-222 | after the timeout the open task is registered and queued; the invariant holds |
| BlockCache.Block.RunNextTask | src/task/WriteTransactionsToBlockTask.cpp:25-53 | the first queued task gets into the file and the index; the invariant holds |
| BlockCache.Block.FinishTask | src/controller/TaskObserver.cpp:91-95 | the finish command takes a task that has run out of the observer; the invariant holds |
| BlockCache.Block.Expire | src/cache/Block.cpp:30 | the cache may forget anything; the invariant holds |
| BlockCache.Block.GetTransaction | src/cache/Block.cpp:126-194 | in every reachable state: the transaction pushed under the number, if and only if its line has 27 bytes or it is still in memory, and not found for any other number |
| BlockCache.Block.SaveIndex | src/task/WriteTransactionsToBlockTask.cpp:55 | the index is saved, or the exception comes exactly if a pushed transaction is not in the file yet |
| SavedBlock.SavableExactly | src/cache/BlockIndex.cpp:92-95 | every entry has its cursor exactly if everything pushed is in the file |
| SavedBlock.WrittenIsWellFormed | src/cache/BlockIndex.cpp:166-216 | a block with nothing left to write has a well-formed and searchable index |
| SavedBlock.ReopenedIsSaved | src/cache/Block.cpp:51-54 | the saved index, loaded again, gives a block that knows the same transactions |
| SavedBlock.ReopenedExactly | src/task/WriteTransactionsToBlockTask.cpp:42-55 | an index saved before more lines were appended loads without an exception, and gives a block that knows its transactions if and only if there are no such lines |
| SavedBlock.LineIsReadExactly | src/blockchain/NodeTransactionEntry.cpp:39-50 | a line read again gives its transaction and leaves the dictionary alone exactly if every address is found under its index |
| SavedBlock.RebuiltIsSaved | src/cache/Block.cpp:55-84 | without an index file, rebuilding from the lines of the block file gives the same index, with no exception, if the dictionary finds the addresses under their indices |
| SavedBlock.RebuiltWithBijective | src/cache/Block.cpp:55-84 | so with a dictionary without collisions that has the addresses under these indices |
| IndexFormat.SizeIsRight | src/model/files/BlockIndex.h:221-229 | size() is the number of bytes a record writes |
| IndexFormat.DataReadBack | src/model/files/BlockIndex.cpp:24-60 | a data record is read back from its bytes, whatever follows |
| IndexFormat.WrittenFileReadsBack | src/model/files/BlockIndex.cpp:189-272 | a written file is read with one call per data record, in order, with its year and month and the right hash, exactly if cursors are non-negative and types known |
| IndexFormat.FileReadsBackBefore | src/model/files/BlockIndex.cpp:257-260 | what stands behind the hash is ignored |
| IndexFormat.RecordBytes | src/model/files/BlockIndex.h:112-124 | the bytes of year, month and data records with their tags, and what of them is hashed |
| IndexFormat.HashedSameExactly | src/model/files/BlockIndex.cpp:62-77 | what is hashed of two queues is the same if and only if the queues are the same but for transaction types |
| IndexFormat.ForeignHashAcceptedExactly | src/model/files/BlockIndex.cpp:260-271 | records with the hash of other records are accepted if and only if both have that hash |
| IndexFormat.ChangeIsNoticedExactly | src/model/files/BlockIndex.cpp:260-271 | as far as the hash tells two files apart, the check lets through exactly changes of transaction types |
| IndexFormat.VirtualFile.Read | src/lib/VirtualFile.cpp:30-40 | the bytes at the cursor, or the exception at the end |
| IndexFormat.VirtualFile.Write | src/lib/VirtualFile.cpp:42-52 | appends at the cursor, or the exception if there is no room |
| IndexFormat.VirtualFile.SetCursor | src/lib/VirtualFile.cpp:53-59 | moves the cursor exactly within the buffer |
| IndexFormat.BlockIndexFile.AddBlock | src/model/files/BlockIndex.h:61-78 | queues the record and keeps the summed size exact |
| IndexFormat.BlockIndexFile.WriteToFile | src/model/files/BlockIndex.cpp:159-187 | writes the file of the queue, never overflows the buffer and fills it to its last byte |
| IndexFormat.BlockIndexFile.ReadFromFile | src/model/files/BlockIndex.cpp:189-272 | the loop over the buffer is the parser of the file |
| YearMonthIndex.SelectFlat | src/cache/BlockIndex.h:106-116 | the nested maps hold the same entries as one list in the order of the months |
| YearMonthIndex.AddedExactly | src/cache/BlockIndex.cpp:166-216 | which transactions are taken in, and that they then stand at the end of their month with nothing else moved |
| YearMonthIndex.CursorStays | src/cache/BlockIndex.cpp:254-286 | a cursor above 0 stays, a missing one is filled in, a negative one ignored, and 0 is only for the lowest number |
| YearMonthIndex.YearsDeliver | src/cache/BlockIndex.cpp:85-109 | the records written for an index deliver every entry with its year, month and cursor, in order |
| YearMonthIndex.FileDelivers | src/cache/BlockIndex.cpp:72-112 | reading the file of a well-formed index delivers its entries in order, with the right hash |
| YearMonthIndex.LoadsItems | src/cache/BlockIndex.cpp:166-216 | adding the entries of a well-formed index one by one meets no order or cursor exception |
| YearMonthIndex.ReloadRestoresIndex | src/cache/BlockIndex.cpp:63-112 | saving and loading a well-formed index gives the same entries, cursors, minimum and maximum |
| IndexCache.BothWaysAgree | src/cache/BlockIndex.cpp:218-252 | adding an entry and adding its values accept the same transactions and file them alike |
| IndexCache.RefusedLeavesCursorExactly | src/cache/BlockIndex.cpp:223-233 | which refused entries leave the cursors as they were, and what the others leave behind |
| IndexCache.BlockIndex.AddFileCursorForTransaction | src/cache/BlockIndex.cpp:254-286 | when a cursor is taken, refused, or the exception comes |
| IndexCache.BlockIndex.AddIndicesForTransaction | src/cache/BlockIndex.cpp:166-216 | files the entry at the end of its month; what each exception leaves behind |
| IndexCache.BlockIndex.AddIndicesForEntry | src/cache/BlockIndex.cpp:218-252 | the same for a transaction entry, cursor first |
| IndexCache.BlockIndex.Serialize | src/cache/BlockIndex.cpp:72-112 | the records of the index in order, nothing for an empty one, the exception exactly if an entry has no cursor |
| IndexCache.BlockIndex.WriteIntoFile | src/cache/BlockIndex.cpp:156-164 | the content of the index file |
| IndexCache.BlockIndex.LoadFromFile | src/cache/BlockIndex.cpp:63-70 | the index after the calls of the reader, or after those before an exception |
| IndexCache.BlockIndex.Exit | src/cache/BlockIndex.cpp:40-49 | saves and empties the index; an exception leaves it as it is |
| BlockSearch.ClampedExactly | src/cache/BlockIndex.h:136-148 | the months searched are those in the filter's interval, exactly if that does not end before the first month to search |
| BlockSearch.IsMatchingFilter | src/cache/BlockIndex.cpp:488-527 | whether an entry passes every part of the filter |
| BlockSearch.PartsPick | src/cache/BlockIndex.cpp:488-527 | single parts of a filter pick exactly the numbers from one to another, a type, a community, or an address |
| BlockSearch.KeySearchIsRightExactly | src/cache/BlockIndex.cpp:296-305 | looking for the index of a key takes exactly the entries with that key, and an unknown key is in no entry, if and only if the dictionary has no second index for it |
| BlockSearch.FindTransactions | src/cache/BlockIndex.cpp:288-350 | the two nested walks with pagination are the scan over the months |
| BlockSearch.CountTransactions | src/cache/BlockIndex.cpp:352-400 | the length of what findTransactions yields without pagination |
| BlockSearch.PageExactly | src/cache/BlockIndex.cpp:326-346 | any page is the next matches, and behind a full page one more for each further month whose first entry matches |
| BlockSearch.DirectedHits | src/cache/BlockIndex.cpp:326-329 | walking a month backwards turns its matches round |
| LinearSearch.RangeFromFlat | src/cache/BlockIndex.cpp:314-348 | month after month gives the same as picking from all entries |
| LinearSearch.EarlyExitIsRight | src/cache/BlockIndex.cpp:291-305 | the early exits drop no match |
| LinearSearch.FoundIsScan | src/cache/BlockIndex.cpp:288-350 | without pagination the result is the linear scan of all entries, in search order |
| LinearSearch.EverythingIsFound | src/cache/BlockIndex.cpp:288-350 | a filter that asks for everything finds all numbers, oldest month first |
| LinearSearch.OneMonthIsFound | src/cache/BlockIndex.cpp:313-348 | an interval of one month finds the numbers of that month in the order they were added, descending the other way round |
| LinearSearch.OneNumberIsFound | src/cache/BlockIndex.cpp:501-506 | a filter for one number finds it exactly if an entry has it, and nothing else |
| LinearSearch.EarlyIntervalFindsOneMonth | src/cache/BlockIndex.h:136-148 | an interval that ends too early yields the matches of the first month to search instead of nothing |
| LinearSearch.IntervalIsRightExactly | src/cache/BlockIndex.h:136-148 | which intervals are searched rightly whatever else the filter asks for |
| LinearSearch.DirectionsReverse | src/cache/BlockIndex.cpp:313-315 | ascending and descending results are reverses |
| ChainSearch.BlockPage | src/cache/BlockIndex.cpp:340-342 | any page of a block begins with its next matches, and only a full page has more |
| ChainSearch.FindAll | src/blockchain/FileBased.cpp:281-313 | what every visited block adds to the page, for any page, in spite of what blocks deliver too much |
| ChainSearch.FirstPageIsFirst | src/blockchain/FileBased.cpp:281-313 | a first page holds the first n matches of the visited blocks in search order |
| ChainSearch.FirstPageOfChain | src/blockchain/FileBased.cpp:431-451 | over non-empty blocks that are searched rightly these are the first n matches of a linear scan of the whole chain |
| ChainSearch.ChainIsRightExactly | src/blockchain/FileBased.cpp:281-313 | for an interval the first pages are right, whatever else the filter asks for, if and only if every block is searched rightly |
| ChainSearch.FindAllResultCount | src/blockchain/FileBased.cpp:333-341 | the number of all matches in these blocks |
| ChainSearch.BlockForId | src/blockchain/FileBased.cpp:344-356 | the newest block whose bounds hold the number |
| ChainSearch.BoundsLeadToBlock | src/blockchain/FileBased.cpp:344-356 | with ascending bounds this is the block that has the entry |
| Dictionary.ReportedIndexIsRight | src/cache/Dictionary.cpp:95-105 | an index reported for a string leads back to it, whatever collides |
| Dictionary.IndexIsStableExactly | src/cache/Dictionary.cpp:95-105 | when asking twice gives the same index |
| Dictionary.CollisionNumbersAgain | src/cache/Dictionary.cpp:95-137 | a string whose digest leads to another one gets a new index each of the n times it is asked for |
| Dictionary.AskingKeepsIndicesExactly | src/cache/Dictionary.cpp:95-105 | when asking keeps every index already assigned |
| Dictionary.ReopenedLastIndexExactly | src/cache/Dictionary.cpp:27-31 | reopening finds the old last index exactly if no two strings share a digest |
| Dictionary.ReopenedCollisionLosesIndex | src/cache/Dictionary.cpp:31 | after reopening with a collision the next new string takes the index of another one |
| Dictionary.ReopeningKeepsBijection | src/cache/Dictionary.cpp:21-33 | without collisions reopening gives the same numbering |
| Dictionary.RunIsBijective | src/cache/Dictionary.cpp:95-137 | over every run of asking and reopening without collisions, indices 1..last and strings correspond one to one |
| Dictionary.AssignedForGood | src/cache/Dictionary.cpp:95-105 | over such a run two askings give one index exactly if they name one string |
| Dictionary.ResetLeavesStaleLookup | src/cache/Dictionary.cpp:40-44 | after a reset that leaves a stale index, a string is numbered again until it is given that index |
| Dictionary.Dictionary.Init | src/cache/Dictionary.cpp:21-33 | enters every string of the file, in whatever order it comes |
| Dictionary.Dictionary.FindIndexForString | src/cache/Dictionary.cpp:120-137 | the index of a string that is confirmed by the file, else 0 |
| Dictionary.Dictionary.GetIndexForString | src/cache/Dictionary.cpp:67-75 | the same with an exception for an unknown string |
| Dictionary.Dictionary.GetStringForIndex | src/cache/Dictionary.cpp:77-88 | the string of an index, or the exception |
| Dictionary.Dictionary.GetOrAddIndexForString | src/cache/Dictionary.cpp:95-105 | the known index, or the next one |
| Dictionary.Dictionary.Reset | src/cache/Dictionary.cpp:40-44 | empties the file and the last index only |
| Scheduler.CPUSheduler.IsAllParentsReady | src/task/Task.cpp:37-51 | terminates for an acyclic parent relation, says whether all parents are finished, and leaves each finished or scheduled |
| Scheduler.CPUSheduler.SheduleTask | src/task/CPUSheduler.cpp:42-67 | the task is with a worker or pending exactly once, with its ancestors on their way, and nobody loses a task; only after stop it is dropped |
| Scheduler.CPUSheduler.ScheduleTask | src/task/CPUTask.cpp:33-40 | while the scheduler runs the task ends up with a worker or pending: a ready one with the first idle worker if there is one; nothing is dropped, lists only grow, and a task scheduled before is left alone |
| Scheduler.CPUSheduler.GetNextUndoneTask | src/task/CPUSheduler.cpp:79-99 | a worker gets the first ready pending task and only that leaves the list, or it is queued as idle and no pending task is ready |
| Scheduler.CPUSheduler.CheckPendingTasks | src/task/CPUSheduler.cpp:100-112 | moves the first ready task if there is one, to the first idle worker or to the end of the list, and nothing otherwise |
| Scheduler.CPUSheduler.RunEnds | src/task/CPUShedulerThread.cpp:26-75 | a run that returned 0 finishes its task, any other drops it and no other one, then the worker gets the first ready task |
| Scheduler.CPUSheduler.SetTaskFinished | src/task/Task.cpp:66-73 | finishing a task whose parents are finished keeps the invariant |
| Scheduler.CPUSheduler.Stop | src/task/CPUSheduler.cpp:69-78 | pending tasks are dropped, working ones go on |
| Scheduler.CPUSheduler.AncestorsInHand | src/task/Task.cpp:37-51 | every ancestor of a scheduled task is finished or in hand, unless one on the way was taken back by stop or ended with an error |
| Scheduler.CPUSheduler.AncestorsFinished | src/task/CPUSheduler.cpp:52-54 | a task given to a worker has only finished ancestors |

## Left out

- Base58.Encode: size_t arithmetic is unbounded; inputs near the end of the address space are not modelled.
- Base58.Decode: models the guards as intended and all limbs as allocated; the file's own guards are in Base58.DecodeAsWritten.
- Base58.DecodeAsWritten: has all limbs allocated; writing behind the allocation of line 53 is not modelled.
- Ordering.SimpleOrderingManager.ProcessTransaction: whether the blockchain adds or refuses a transaction, and with which exception, is a parameter.
- Restart.ChainHoldsNoneTwice: a transaction known already is refused by its message here; how the source recognises it is not part of this model.
- WriteBehind.PushKeeps: a number that is not the next one is excluded, as the chain numbers its transactions one after the other; a line of 65536 bytes or more is excluded, as the source's assert does.
- BlockCache.Block.PushTransaction: excludes the same as WriteBehind.PushKeeps.
- BlockFile.Block.AppendLines: file sizes and cursors are unbounded numbers, the source keeps them in 32 bits; a longer line than 65535 bytes is excluded, as the source's assert does.
- BlockFile.Block.RebuildBlockIndex: pushing a line to the rebuild task is recording it; what the task makes of it is in SavedBlock.RebuiltIsSaved.
- IndexFormat.BlockIndexFile.ReadFromFile: a missing trailer is compared with memory never set; the model counts that as a mismatch.
- IndexCache.BlockIndex.LoadFromFile: the index is called after the file has been read and not while it is read; both give the same index and the same exception, as the index does not touch the file.
- IndexCache.BlockIndex.GetFileCursorForTransactionNr: the waiting loop for a cursor of 0 only waits and is not modelled.
- IndexCache.BlockIndex.Serialize: the assert that an index with something to save has entries and cursors is not modelled; asserts may be switched off.
- BlockCache.Block.RunNextTask: appending the lines and entering their cursors is one step; saving the index and finishing the task are steps of their own.
- BlockCache.Block.GetTransaction: exit() is not modelled. It runs the open task at once, before waiting ones, after which the order of the lines in the file is not that of the numbers.
- BlockSearch.FindTransactions: a coin community is given by its index; the lookup of that index is not part of the model.
- ChainSearch.FindAll: results are transaction numbers; a custom filter function and creating a block that does not exist are not modelled.
- ChainSearch.FirstPageOfChain: only first pages; on later pages every block skips matches of its own, so they are not pages of the whole chain.
- Ordering.SimpleOrderingManager.LoopTurn: what a turn finds out about a cross-group transaction, and how adding it ends, are parameters.
- Scheduler.CPUSheduler.SheduleTask: all tasks of a parent relation belong to one scheduler, and every call is one step; tasks that replace isReady and ignore parents (src/task/CPUTaskGRPCReactor.h:16, src/task/CheckForCrossGroupPairTask.h:26) are not modelled.
- Dictionary.Dictionary.GetOrAddIndexForString: addStringIndex and hasStringIndexPair are not modelled.
- calculateHash and validateHash of block files (src/model/files/Block.cpp:202-269), which start the hash from memory never set.
- hasSpaceLeft, which nothing calls, and the maximal size of a block file.
- findAllFast with pagination, findByMessageId and findTransactionsForMonthYear, which would add easy members.
- File locks, timers, condition variables and liveness; only safety is proved.
- Transaction validation, decay, trigger events, the iota sources, and all clients and servers.
