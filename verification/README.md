# Verified models of the profiler's storage, recording format and unwind tables

This project models the parts of the native profiler library that are hardest to get right, and
proves what they are for. `dafny verify dfyconfig.toml` checks it.

Four groups of modules follow the source files:

- **Storage shared by signal handlers.** `SpinLock` and `LockStripes` (spinLock.h, profiler.cpp),
  `LinearAllocator` with `AllocAnswers`, `TraceStorage` with `TraceInvariant`, `TraceTheorems`, `TraceMatch`,
  `TraceMismatch`, `TraceAnswers`, `TraceCollect`, `Probe` and `TraceIds` (callTraceStorage.cpp), `DictTree`, `DictRace`,
  `DictOwners`, `DictTheorems`, `DictReader`, `HashWalk`, `DictMap`, `DictClear` and `Dictionary` (dictionary.cpp,
  dictionary.h), `BitmapPages`, `FilterRace` and `ThreadFilter` (threadFilter.cpp). Concurrent code is a state machine: any number of threads, each
  with a program counter whose states are the atomic loads, compare-and-swaps and fetch-and-adds of
  the source, interleaved in any order, with values read earlier gone stale. Invariants are kept by
  every step; the theorems speak of every state of every run and,
  for `put`, `alloc`, `lookup`, the locks and the filter's `add` and `remove`, of what a call that
  returns has done and why it returns what it does. Loops that one thread runs alone
  (`clear`, `collect`, the search of `findCallTrace`, sequential lookups) are methods on classes.
- **Recording format.** `Varint`, `Buffer`, `EventFormat`, `FlightRecorder`: the byte-exact writers
  as methods over an array, a decoder written independently that gives each value its declared name, and
  the round trip of whole files.
- **Unwind tables.** `Leb128`, `Cfi`, `ExpressionStack`, `CfiParser`, `UnwindTable` and, as the
  compiler's side, `CfiEncoding` and `FrameSection`: from bytes through call frame instructions and rows to the compressed
  table and its binary search. `CfiStandard` has the instructions as sections 6.4.2 and 2.5 of DWARF 5
  define them, and says exactly for which programs the parser's rows are the rows of the standard.
- **Tracked objects.** `LivenessTracker`: compaction in place and ages.

`Words`, `Bits`, `Sums` and `LockWord` are shared groundwork.

What the source takes for granted is a precondition here and nothing more: trace hashes are not 0;
dictionary keys have no NUL byte; at most ten context attributes; an allocation fits in a chunk;
the chunk header fits and chunks are at most 2^63 bytes; call frame locations do not decrease or
wrap; at most 2^31 threads meet at one lock. Capacities, page sizes, row and cell counts, hash
functions and registers are parameters. Memory that is asked for is there, except from `safeAlloc`
in the allocator and in table growth, which may fail at any call; the growth of a table beyond 2^30
slots is taken to fail. Counters, sizes and base numbers are unbounded, so a statement about 32-bit
ids says up to which size it holds. Bytes beyond the memory given to the unwind parser read as 0, and
a shift by 32 or more, which the language leaves undefined, gives 0.

Where the code differs from its comments, or from what one expects, the model follows the code:

- After losing a slot to another thread, `put` looks at the same slot again; the comment says it goes
  to the next one (callTraceStorage.cpp:220-222).
- `put` clears a word of the previous table by the slot number of the new one
  (callTraceStorage.cpp:240-245). The number may lie beyond the keys, among the samples; the model
  clears whatever word is there. `TraceMismatch` has, for every initial capacity, a run in which this
  makes a later put store the trace of another hash and gives two hashes one id; `TraceMatch` proves that it takes a put that
  claims a slot of a table which already has a successor.
- The thread filter reserves a place for one page per 65536 ids although a page holds 524288
  (threadFilter.cpp:30). An id from the maximum on is stored and counted by `add` when it has a place,
  but never accepted or removed.
- Clearing the thread filter while an id is being added or removed can leave the size wrong for good
  (threadFilter.cpp:79-86); `FilterRace.ClearExact` says exactly when.
- A tracked object that meets a full table of maximum capacity is not stored even if the forced
  cleanup made room, and its weak reference is not given back (livenessTracker.cpp:336-377).
- The unwind parser takes the alignment factors of all functions from the first entry
  (dwarf.cpp:168): right exactly if all common entries agree (`CfiParser.AlignmentExact`).
- It never runs the initial instructions of a common entry (dwarf.cpp:145-158), treats "undefined" and
  "restore" like "same value", for the frame pointer only (dwarf.cpp:229-235), keeps one saved frame
  instead of a stack, and ends a program at the first no-operation or unknown instruction.
  `CfiStandard.ParserExact` states for which programs that is the standard's meaning, in both
  directions.
- Its pc expression keeps two accumulators instead of a stack (dwarf.cpp:349-398): right exactly for
  constants and operators in pairs (`ExpressionStack.ParserEvaluatesPairs`).
- Monitor and park events are written (flightRecorder.cpp:1401-1431), but the metadata declares no type for
  them; the names of their fields here are those of the JDK's events.

## Model

| member | source | states |
|---|---|---|
| `LockWord.AcquireShared` | ddprof-lib/src/main/cpp/spinLock.h:46-65 | a successful shared compare-and-swap on a word that counts the holders correctly still counts them correctly, 32-bit wrap-around included |
| `LockWord.ReleaseExclusive` | ddprof-lib/src/main/cpp/spinLock.h:44 | the decrement of `unlock` by the exclusive holder leaves the word of a free lock |
| `LockWord.ExclusiveIsAlone` | ddprof-lib/src/main/cpp/spinLock.h:36-66 | under a word that means what it should, an exclusive holder excludes every other holder |
| `SpinLock.StepKeepsInv` | ddprof-lib/src/main/cpp/spinLock.h:36-66 | every atomic instruction of every lock operation, with stale values in flight, keeps the meaning of the word |
| `SpinLock.WordCountsHolders` | ddprof-lib/src/main/cpp/spinLock.h:24-66 | in every state of every run the word is positive iff there is a writer, and is then 1; otherwise it is minus the number of readers; a writer has no company |
| `SpinLock.ReaderRefusedExact` | ddprof-lib/src/main/cpp/spinLock.h:46-55 | tryLockShared gives up exactly when it reads the word while there is a writer; readers never refuse a reader |
| `SpinLock.ReaderSucceeds` | ddprof-lib/src/main/cpp/spinLock.h:46-63 | a reader that finds no writer gets the lock with its next step if the readers are as many as before and there is still no writer, however many there are; else it tries again |
| `SpinLock.WriterSucceedsExact` | ddprof-lib/src/main/cpp/spinLock.h:36-42 | a look of lock() gets the lock exactly when nobody has it |
| `SpinLock.UnlockReleases` | ddprof-lib/src/main/cpp/spinLock.h:44-65 | unlocking takes one step and gives back exactly what was held |
| `LockStripes.IndexFoldsNibbles` | ddprof-lib/src/main/cpp/profiler.cpp:172-177 | the stripe of a thread is the exclusive or of the four low nibbles of its id |
| `LockStripes.NeighboursSpread` | ddprof-lib/src/main/cpp/profiler.cpp:172-177 | two ids that differ in the low nibble only start at different stripes |
| `LockStripes.AttemptsDiffer` | ddprof-lib/src/main/cpp/profiler.cpp:658-661 | the three attempts of one sample are at three different stripes |
| `LockStripes.StepKeepsInv` | ddprof-lib/src/main/cpp/profiler.cpp:1385-1393 | every lock and unlock of recorders and of lockAll keeps every stripe word right |
| `LockStripes.OneRecorderPerStripe` | ddprof-lib/src/main/cpp/profiler.cpp:654-734 | in every run each stripe has at most one recorder, and no thread records or holds all stripes while another is between lockAll and unlockAll |
| `LockStripes.AttemptExact` | ddprof-lib/src/main/cpp/profiler.cpp:654-668 | an attempt gets its stripe exactly if nobody holds it then; the second and third attempt are one and two stripes further; only the third one drops the sample |
| `LockStripes.DroppedAfterThree` | ddprof-lib/src/main/cpp/profiler.cpp:654-668 | a dropped sample has found the stripes at offsets 0, 1 and 3 taken, one after the other |
| `LinearAllocator.StepKeepsInv` | ddprof-lib/src/main/cpp/linearAllocator.cpp:44-113 | every load, compare-and-swap, allocation and free of every thread in `alloc` keeps the chain, the ownership of unpublished chunks and the granted blocks right, although freed addresses are reused |
| `AllocAnswers.AllocAnswers` | ddprof-lib/src/main/cpp/linearAllocator.cpp:44-62 | every call of alloc(size) that returns was granted exactly one block, of exactly that size; or none, its last step was a failed allocation of a chunk, and before it had read that the reserve was still the chunk it had found full |
| `AllocAnswers.LeavesFullChunk` | ddprof-lib/src/main/cpp/linearAllocator.cpp:48-51 | a thread leaves a chunk for the next one exactly when offset plus size, as numbers, exceed the chunk size |
| `AllocAnswers.ReserveIsTaken` | ddprof-lib/src/main/cpp/linearAllocator.cpp:90-113 | a thread that reads a reserve beyond its full chunk allocates nothing and goes on at the tail, which is that reserve if the chunk was still the tail |
| `AllocAnswers.NextChunkIsNewer` | ddprof-lib/src/main/cpp/linearAllocator.cpp:90-113 | whenever a thread comes back from looking for the next chunk it is at the tail, a chunk newer than the one it left |
| `AllocAnswers.GrantReturns` | ddprof-lib/src/main/cpp/linearAllocator.cpp:51-57 | a grant goes on to prepare the next chunk exactly if the block covers the middle of its chunk, and else returns at once |
| `AllocAnswers.MiddlePrepares` | ddprof-lib/src/main/cpp/linearAllocator.cpp:52-56 | when the call over the middle returns there has been a reserve beyond its chunk, or its last step was a failed allocation |
| `LinearAllocator.ReserveFollowsTail` | ddprof-lib/src/main/cpp/linearAllocator.cpp:81-113 | in every run the reserve is the tail or a live chunk whose `prev` is the tail |
| `LinearAllocator.TailMovesForward` | ddprof-lib/src/main/cpp/linearAllocator.cpp:90-113 | between clears the chain only grows at its end and the tail only moves towards it |
| `LinearAllocator.FreedChunksAreInvisible` | ddprof-lib/src/main/cpp/linearAllocator.cpp:81-113 | a chunk about to be freed by a loser of a race was never published and nobody else knows it; no thread ever holds a freed chunk |
| `LinearAllocator.QuiescentChunksAreTheChain` | ddprof-lib/src/main/cpp/linearAllocator.cpp:44-113 | when no `alloc` is active the live chunks are exactly the chain from the reserve: no leak |
| `LinearAllocator.BlocksAreDisjoint` | ddprof-lib/src/main/cpp/linearAllocator.cpp:44-62 | over all runs any two granted blocks are disjoint and lie in the usable part of a live chunk |
| `LinearAllocator.MiddleTestIsExact` | ddprof-lib/src/main/cpp/linearAllocator.cpp:52 | the unsigned test holds exactly for the allocation that covers the middle of the chunk, despite wrap-around |
| `LinearAllocator.MiddleTestFiresOnce` | ddprof-lib/src/main/cpp/linearAllocator.cpp:52-55 | at most one allocation per chunk prepares the next chunk |
| `LinearAllocator.Arena.Clear` | ddprof-lib/src/main/cpp/linearAllocator.cpp:31-42 | walking back and freeing leaves exactly the first chunk, empty, as tail and reserve; every other live chunk is freed once |
| `LinearAllocator.ClearKeepsInv` | ddprof-lib/src/main/cpp/linearAllocator.cpp:31-42 | what `clear` leaves is a sound start for further runs |
| `Probe.ProbesDiffer` | ddprof-lib/src/main/cpp/callTraceStorage.cpp:212-213 | the first `capacity` probes of a hash are at different slots, for every power of two |
| `Probe.ProbeReachesEverySlot` | ddprof-lib/src/main/cpp/callTraceStorage.cpp:249-256 | every slot is met within `capacity` probes |
| `Probe.HashOccursOnce` | ddprof-lib/src/main/cpp/callTraceStorage.cpp:215-222 | in a table in path order no nonzero hash sits in two slots |
| `Probe.ClaimKeepsPathInv` | ddprof-lib/src/main/cpp/callTraceStorage.cpp:219-222 | claiming the first empty slot behind slots with other hashes keeps path order |
| `Probe.OverflowMeansFull` | ddprof-lib/src/main/cpp/callTraceStorage.cpp:249-254 | after `capacity` other hashes on a path, every slot of the table holds another hash |
| `Probe.FindSlot` | ddprof-lib/src/main/cpp/callTraceStorage.cpp:176-193 | in any table, also one with cleared keys, the result is decided by the first slot on the path that holds the hash or 0, and a path without one means that the hash is nowhere; in path order the slot is found if and only if the hash is in the table |
| `Probe.AbsentIfEmptyReached` | ddprof-lib/src/main/cpp/callTraceStorage.cpp:182-185 | in a table in path order, an empty slot on the path proves the hash absent |
| `TraceIds.BandsTile` | ddprof-lib/src/main/cpp/callTraceStorage.cpp:264 | the id bands of successive tables start at 1 and follow each other without gap or overlap |
| `TraceIds.EveryIdHasASlot` | ddprof-lib/src/main/cpp/callTraceStorage.cpp:264 | every positive number is the id of a slot of some table |
| `TraceIds.IdsDiffer` | ddprof-lib/src/main/cpp/callTraceStorage.cpp:264 | up to a capacity of 2^30 different slots have different 32-bit ids |
| `TraceIds.IdIsExact` | ddprof-lib/src/main/cpp/callTraceStorage.cpp:15 | up to that capacity no id is truncated, 0 or the overflow id |
| `TraceIds.OverflowIdAvoided` | ddprof-lib/src/main/cpp/callTraceStorage.cpp:13-15 | with the initial capacity 65536 the ids of a table avoid the overflow id if and only if its capacity is at most 2^30 |
| `TraceInvariant.StepKeepsInv` | ddprof-lib/src/main/cpp/callTraceStorage.cpp:195-265 | every atomic instruction of `put` and `clear` of any number of threads keeps the lock, the chain, the path order, the growth protocol and the counts |
| `TraceAnswers.PutAnswers` | ddprof-lib/src/main/cpp/callTraceStorage.cpp:195-265 | every put that returns was refused while somebody was inside clear; or had counted an overflow; or returns, with its hash and weight, a slot in which it found its hash, or which it claimed and gave a trace (its own, one of the previous table, or none for want of memory), and to that slot it has added one sample and its weight |
| `TraceAnswers.RefusedExact` | ddprof-lib/src/main/cpp/callTraceStorage.cpp:202-205 | a put is refused exactly if somebody is inside clear when it looks at the lock |
| `TraceTheorems.ClearNeverOverlapsPut` | ddprof-lib/src/main/cpp/callTraceStorage.cpp:88-99 | in every run nobody is inside `put` or `clear` while another thread is inside `clear` |
| `TraceTheorems.HashSitsOnce` | ddprof-lib/src/main/cpp/callTraceStorage.cpp:207-222 | in every interleaving a nonzero hash sits in at most one slot of the newest table, behind slots with other keys on its path |
| `TraceTheorems.EqualHashesEqualIds` | ddprof-lib/src/main/cpp/callTraceStorage.cpp:259-264 | puts that landed in the newest table got equal ids if and only if their hashes are equal; no such id is 0 or the overflow id |
| `TraceTheorems.StoredTracesMatch` | ddprof-lib/src/main/cpp/callTraceStorage.cpp:232-238 | before the storage has grown, whatever the interleaving, a stored trace has the hash of its slot's key |
| `TraceMatch.ClaimMatchExact` | ddprof-lib/src/main/cpp/callTraceStorage.cpp:219-222 | from a heap in which all stored traces match their keys, claiming a slot keeps that if and only if the slot has no trace or a trace of the claimed hash |
| `TraceMatch.StoreMatchExact` | ddprof-lib/src/main/cpp/callTraceStorage.cpp:232-238 | storing a trace keeps it if and only if the key of the slot is cleared or is the hash of the trace |
| `TraceMatch.OthersKeepMatch` | ddprof-lib/src/main/cpp/callTraceStorage.cpp:195-265 | no other instruction of `put` breaks it, the clearing of a foreign word included |
| `TraceMatch.StepKeepsMatch` | ddprof-lib/src/main/cpp/callTraceStorage.cpp:195-265 | every step that does not claim a slot of a table with a successor keeps the match of all tables with what each `put` knows of its slots |
| `TraceMatch.TimelyTracesMatch` | ddprof-lib/src/main/cpp/callTraceStorage.cpp:232-245 | since a clear, as long as no `put` claimed a slot of a table that already had a published successor, every slot of every table, old or new, with a key and a trace has the trace of that key |
| `TraceMatch.TimelyIds` | ddprof-lib/src/main/cpp/callTraceStorage.cpp:259-264 | in such a run puts that landed in the same table, whichever it is, got equal ids if and only if their hashes are equal |
| `TraceMatch.ClearLeavesFresh` | ddprof-lib/src/main/cpp/callTraceStorage.cpp:88-99 | the last step of clear leaves one empty table, no results and nobody inside put |
| `TraceMismatch.ForeignTraceStored` | ddprof-lib/src/main/cpp/callTraceStorage.cpp:232-245 | without that condition it fails, for every initial capacity N: a run fills three quarters of the first table, and a late claim leaves the trace of hash N under the key 2N in the second |
| `TraceMismatch.SameIdForTwoHashes` | ddprof-lib/src/main/cpp/callTraceStorage.cpp:259-264 | and ids fail with it: that run goes on to a state, without any clear, in which a put of hash N and the late put of hash 2N have both returned with the same id |
| `TraceTheorems.OverflowOnlyWhenFull` | ddprof-lib/src/main/cpp/callTraceStorage.cpp:249-254 | a `put` about to report overflow in a table without successor has every slot of it taken by other hashes |
| `TraceTheorems.GrowthSucceeds` | ddprof-lib/src/main/cpp/callTraceStorage.cpp:223-230 | at most one `put` grows the chain at a time, and its compare-and-swap on the current table succeeds |
| `TraceTheorems.GrowsAtThreeQuarters` | ddprof-lib/src/main/cpp/callTraceStorage.cpp:223-226 | when the size of a table of c slots passes from below 3c/4 to it or beyond, with no clear between, exactly one step of one put begins to grow the chain, by the count that makes the size 3c/4 |
| `TraceTheorems.ThresholdSeenByOne` | ddprof-lib/src/main/cpp/callTraceStorage.cpp:223-226 | the same for the threshold as the code computes it |
| `TraceTheorems.ThresholdSeenOnce` | ddprof-lib/src/main/cpp/callTraceStorage.cpp:225 | between clears no two steps see the threshold of the same table |
| `TraceTheorems.ChainDoubles` | ddprof-lib/src/main/cpp/callTraceStorage.cpp:226-229 | every table is reachable: table g has capacity 2^(bits + g) and points back to table g - 1 |
| `TraceTheorems.PutsAreConserved` | ddprof-lib/src/main/cpp/callTraceStorage.cpp:259-264 | at rest the samples and counters of the newest table add up to the puts that landed in it and their weight, and all completed puts are those samples, the puts that landed in earlier tables, the overflows and the refusals |
| `TraceTheorems.EveryThreadCanStep` | ddprof-lib/src/main/cpp/callTraceStorage.cpp:195-265 | no thread is ever stuck: what its next instruction reads or writes exists and is in range |
| `TraceCollect.Storage.CollectTraces` | ddprof-lib/src/main/cpp/callTraceStorage.cpp:101-122 | the collected map has exactly the ids of slots with a key, new samples and a trace, each with that trace, and the overflow entry exactly if there was an overflow; samples of used slots become 0, nothing else changes |
| `TraceCollect.SoundAndCompleteIsExact` | ddprof-lib/src/main/cpp/callTraceStorage.cpp:114 | ids of different reported slots do not overwrite each other in the map |
| `TraceCollect.NextEntry` | ddprof-lib/src/main/cpp/callTraceStorage.cpp:114 | the id written for a slot is the one `put` returns for it |
| `TraceCollect.NothingLeftToReport` | ddprof-lib/src/main/cpp/callTraceStorage.cpp:109-111 | a second collection reports no trace again |
| `DictTree.KeyEqualsIsEquality` | ddprof-lib/src/main/cpp/dictionary.cpp:24-34 | a stored key without NUL compares equal to that key only, whatever bytes the argument has |
| `DictTree.KeyEqualsExact` | ddprof-lib/src/main/cpp/dictionary.cpp:24-34 | the comparison with a stored key is equality, for all arguments, if and only if the stored key has no NUL |
| `DictTree.KeyStoredOnce` | ddprof-lib/src/main/cpp/dictionary.cpp:89-131 | when cells are filled in walking order, a key is in at most one cell |
| `DictTree.IndicesDiffer` | ddprof-lib/src/main/cpp/dictionary.h:41-43 | different cells of any tables have different nonzero numbers |
| `DictTree.IndexDecodes` | ddprof-lib/src/main/cpp/dictionary.h:41-43 | row and cell are read back from a number: the row is its low bits |
| `HashWalk.RowBits` | ddprof-lib/src/main/cpp/dictionary.cpp:91-129 | the row of a key at level l consists of the row bits of its 32-bit hash from position l times their number on, around the word |
| `HashWalk.RotateBits` | ddprof-lib/src/main/cpp/dictionary.cpp:129 | the rotation moves every bit of the hash down by the row bits, the lowest to the top |
| `DictTree.ClaimKeeps` | ddprof-lib/src/main/cpp/dictionary.cpp:96-104 | claiming the first empty cell on the walk of a key keeps walking order |
| `DictOwners.CasFate` | ddprof-lib/src/main/cpp/dictionary.cpp:112-122 | the table of the winner of the race for a link joins the tree, that of the loser is freed, and it had not been freed before |
| `DictTheorems.StepKeepsInv` | ddprof-lib/src/main/cpp/dictionary.cpp:89-131 | every atomic instruction of any number of lookups keeps the tree, the tables' fates, the answers and the count right, and only adds to the tree |
| `DictTheorems.OneKeyOneId` | ddprof-lib/src/main/cpp/dictionary.cpp:89-131 | over all interleavings and at all times two lookups return the same id if and only if they looked up the same key, and never 0 |
| `DictTheorems.IdKeepsMeaning` | ddprof-lib/src/main/cpp/dictionary.cpp:99-110 | an id once returned stands for its key in every later state |
| `DictReader.InsertingAnswers` | ddprof-lib/src/main/cpp/dictionary.cpp:89-131 | in every run an inserting lookup that returns has answered with a cell that holds its key; it never returns the sentinel |
| `DictReader.ReadingAnswers` | ddprof-lib/src/main/cpp/dictionary.cpp:89-131 | a lookup that does not insert changes nothing at any step, returns the sentinel exactly when it is at the end of a row without a link, and else answers with a cell that holds its key |
| `DictReader.AnsweredKeyIsFound` | ddprof-lib/src/main/cpp/dictionary.cpp:89-131 | in every run, a lookup, inserting or not, that starts after a lookup of the same key has returned leaves only by answering with the same cell; it never returns the sentinel |
| `DictTheorems.DiscardedTablesAreUnseen` | ddprof-lib/src/main/cpp/dictionary.cpp:114-122 | a discarded table is never reached by a thread, linked or given a key |
| `DictTheorems.AtRest` | ddprof-lib/src/main/cpp/dictionary.cpp:99-122 | with no lookup in progress `_size` is the number of different keys, and every table ever made is linked or freed, not both |
| `DictTheorems.EveryThreadCanStep` | ddprof-lib/src/main/cpp/dictionary.cpp:89-131 | a lookup never blocks |
| `DictMap.ViewInjective` | ddprof-lib/src/main/cpp/dictionary.cpp:89-131 | in the map a dictionary stands for, different keys have different nonzero ids |
| `Dictionary.Dictionary.Lookup` | ddprof-lib/src/main/cpp/dictionary.cpp:89-131 | a known key yields its id and changes nothing; an unknown one yields the sentinel and changes nothing, or extends the map by that key |
| `Dictionary.Dictionary.BoundedLookup` | ddprof-lib/src/main/cpp/dictionary.cpp:137-142 | the sentinel comes back exactly when the key is absent and the limit is reached, and the limit is never passed |
| `Dictionary.Dictionary.Collect` | ddprof-lib/src/main/cpp/dictionary.cpp:144-161 | the collected map is the exact inverse of the dictionary's map and has `_size` entries |
| `Dictionary.CollectedIsInverse` | ddprof-lib/src/main/cpp/dictionary.cpp:148-161 | a map with everything of the tree and nothing else is that inverse |
| `Dictionary.Dictionary.Clear` | ddprof-lib/src/main/cpp/dictionary.cpp:43-70 | an empty map, size 0, ids from 1 again; every key and every table but the first is given back, once |
| `DictClear.RowsApart` | ddprof-lib/src/main/cpp/dictionary.cpp:53-69 | in the tree that lookups build, no table hangs below two rows of one table |
| `Varint.Var64RoundTrip` | ddprof-lib/src/main/cpp/buffers.h:155-173 | decoding the bytes of any 64-bit value gives it back and consumes exactly those bytes |
| `Varint.Var64IsShortest` | ddprof-lib/src/main/cpp/buffers.h:155-173 | no byte string that decodes to the value is shorter, and nine bytes are enough |
| `Varint.SameBytes` | ddprof-lib/src/main/cpp/buffers.h:142-173 | below 2^32 the 64-bit and 32-bit forms have the same bytes, at most five |
| `Varint.SameBytesIff` | ddprof-lib/src/main/cpp/buffers.h:142-173 | the forms without and with a full ninth byte agree if and only if the value is below 2^63 |
| `Varint.PaddedRoundTrip` | ddprof-lib/src/main/cpp/buffers.h:207-213 | the padded five-byte form decodes to its value |
| `Buffer.Buffer.PutVar64` | ddprof-lib/src/main/cpp/buffers.h:155-173 | the unrolled loop appends exactly the specified bytes; the mark on the ninth byte changes nothing |
| `Buffer.Buffer.PutVar32` | ddprof-lib/src/main/cpp/buffers.h:142-149 | the loop appends exactly the minimal form |
| `Buffer.Buffer.PutVar32At` | ddprof-lib/src/main/cpp/buffers.h:207-213 | five reserved bytes are overwritten with the padded form and nothing else |
| `Buffer.Big32RoundTrip` | ddprof-lib/src/main/cpp/buffers.h:105-109 | four bytes in network order give back the value |
| `EventFormat.ReadEventBack` | ddprof-lib/src/main/cpp/flightRecorder.cpp:1283-1287 | the one-byte size is a valid varint and leads a reader to the next event, whose fields are read back exactly |
| `EventFormat.ReadStreamBack` | ddprof-lib/src/main/cpp/flightRecorder.cpp:626-638 | a sequence of events reads back as exactly these events |
| `EventFormat.ReadTells` | ddprof-lib/src/main/cpp/jfrMetadata.cpp:104-195 | the values that an event has at the declared names of its fields are read back from its bytes |
| `FlightRecorder.Lane.WriteContext` | ddprof-lib/src/main/cpp/flightRecorder.cpp:1274-1281 | the span ids and each context attribute follow, in at most 68 bytes |
| `FlightRecorder.Lane.WriteEventSizePrefix` | ddprof-lib/src/main/cpp/flightRecorder.cpp:1283-1287 | patching the reserved byte completes one well-formed event shorter than 128 bytes |
| `FlightRecorder.Recording.FlushIfNeeded` | ddprof-lib/src/main/cpp/flightRecorder.cpp:626-638 | file and buffer together keep their events; afterwards the buffer is below the threshold |
| `FlightRecorder.Recording.RecordExecutionSample` | ddprof-lib/src/main/cpp/flightRecorder.cpp:1289-1302 | the log gains exactly one event, within the size bound and the buffer limit; a reader finds each argument at the name the metadata declares: start time, thread modulo 2^64, stack trace, state, mode, weight, span ids, attributes |
| `FlightRecorder.Recording.RecordMethodSample` | ddprof-lib/src/main/cpp/flightRecorder.cpp:1304-1317 | the same for method samples |
| `FlightRecorder.Recording.RecordWallClockEpoch` | ddprof-lib/src/main/cpp/flightRecorder.cpp:1319-1331 | start time, duration, pool size, and the numbers of successful, failed, exited and denied samples at their names |
| `FlightRecorder.Recording.RecordTraceRoot` | ddprof-lib/src/main/cpp/flightRecorder.cpp:1333-1346 | start time, thread modulo 2^32, endpoint, operation and root span at their names; duration and stack trace are 0 |
| `FlightRecorder.Recording.RecordQueueTime` | ddprof-lib/src/main/cpp/flightRecorder.cpp:1348-1362 | start time, end minus start modulo 2^64, thread, origin, task, scheduler, queue type and length, and the context, at their names |
| `FlightRecorder.Recording.RecordAllocation` | ddprof-lib/src/main/cpp/flightRecorder.cpp:1364-1377 | start time, thread, stack trace, class, size, weight bits and the context at their names |
| `FlightRecorder.Recording.RecordHeapLiveObject` | ddprof-lib/src/main/cpp/flightRecorder.cpp:1379-1399 | start time, thread modulo 2^32, stack trace, class, age, size, weight bits and the context at their names |
| `FlightRecorder.Recording.RecordMonitorBlocked` | ddprof-lib/src/main/cpp/flightRecorder.cpp:1401-1415 | start time, end minus start modulo 2^64, thread, stack trace, class, address and the context at their names |
| `FlightRecorder.Recording.RecordThreadPark` | ddprof-lib/src/main/cpp/flightRecorder.cpp:1417-1431 | start time, end minus start modulo 2^64, thread, stack trace, class, timeout modulo 2^64, address at their names, and 2^63 for "until" |
| `FlightRecorder.FileReadsBack` | ddprof-lib/src/main/cpp/flightRecorder.cpp:626-638 | whatever lanes wrote and wherever flushes fell, the file reads back as the events flushed so far, and with pending bytes as these and the pending ones |
| `Leb128.Reader.GetLeb` | ddprof-lib/src/main/cpp/dwarf.h:127-136 | the result is the unsigned number of section 7.6 of DWARF 5, in 32 bits, and the pointer stands behind it |
| `Leb128.Reader.GetSLeb` | ddprof-lib/src/main/cpp/dwarf.h:138-150 | the same for signed numbers, sign extension included |
| `Leb128.Reader.SkipLeb` | ddprof-lib/src/main/cpp/dwarf.h:152-155 | the pointer stands behind the number |
| `Leb128.ReadersInvert` | ddprof-lib/src/main/cpp/dwarf.h:127-150 | every u32 survives the minimal and the padded encoding, every 32-bit int the signed one |
| `UnwindTable.UnpackCfa` | ddprof-lib/src/main/cpp/dwarf.cpp:402-411 | register and offset are unpacked exactly if and only if they satisfy the asserted ranges |
| `UnwindTable.FrameTable.AddRecord` | ddprof-lib/src/main/cpp/dwarf.cpp:400-437 | the table in memory, grown when full, is the compression of all rows added |
| `UnwindTable.CompressionKeepsRules` | ddprof-lib/src/main/cpp/dwarf.cpp:413-416 | for every non-decreasing list of rows the compressed table is strictly increasing and answers every lookup as the plain list |
| `UnwindTable.CompressedIsShort` | ddprof-lib/src/main/cpp/dwarf.cpp:413-416 | rows at increasing locations leave no row that repeats the rule before it |
| `UnwindTable.FindFrameDesc` | ddprof-lib/src/main/cpp/codeCache.cpp:362-385 | the search finds the rule of the last row at or before the address; before the first row the empty frame exactly inside the PLT, else the default frame |
| `UnwindTable.TableByFunction` | ddprof-lib/src/main/cpp/dwarf.cpp:137-180 | a table of sorted functions gives every address the rule of its function, and the default rule between functions |
| `Cfi.SlotIsTopOfStack` | ddprof-lib/src/main/cpp/dwarf.cpp:240-251 | while every restore has a remember since the last restore, the saved slot is the top of the stack of section 6.4.2.4 |
| `Cfi.OneSlotIsEnough` | ddprof-lib/src/main/cpp/dwarf.cpp:182-344 | programs that nest remember and restore at most once yield the rows that the stack yields |
| `Cfi.OneSlotExact` | ddprof-lib/src/main/cpp/dwarf.cpp:240-251 | for a list of remembers and restores in which every restore has something to pop: all programs with that list have the rows of the stack if and only if each restore has a remember since the last restore |
| `Cfi.TwoLevelsLoseOne` | ddprof-lib/src/main/cpp/dwarf.cpp:240-251 | a program nested twice whose rows differ |
| `CfiEncoding.DecodeEncoded` | ddprof-lib/src/main/cpp/dwarf.cpp:196-341 | every instruction of section 7.24 of DWARF 5, and the vendor instruction for return addresses, encoded as there, is read as the parser means to read it, up to its last byte |
| `CfiEncoding.ProgramOfCode` | ddprof-lib/src/main/cpp/dwarf.cpp:196-341 | a program in memory is read as the list of its instructions |
| `CfiEncoding.RowsOfCode` | ddprof-lib/src/main/cpp/dwarf.cpp:182-344 | for encoded programs nested at most once the parser adds the rows that a stack of frames gives, with the effects the parser gives to each instruction |
| `CfiEncoding.ReadTerms` | ddprof-lib/src/main/cpp/dwarf.cpp:349-398 | an encoded pc expression is read back as its terms and accumulated over them, up to its last byte |
| `CfiStandard.ParserExact` | ddprof-lib/src/main/cpp/dwarf.cpp:182-344 | for an even offset factor, as stacks have: the rows of the standard, in the meaning of section 6.4.2 of DWARF 5, are the rows of the parser for all plain programs with given restores, undefined registers and other telling instructions if and only if the initial rules are those the parser starts with, each restore_state has a remember_state since the last one, and every one of these instructions avoids the registers for which the parser deviates |
| `CfiStandard.CodeMeetsStandard` | ddprof-lib/src/main/cpp/dwarf.cpp:182-344 | from plain encoded instructions that meet the condition, with the padding that ends them, to the rows of the standard |
| `CfiStandard.PaddingKeepsRows` | ddprof-lib/src/main/cpp/dwarf.cpp:201-204 | no-operations at the end of a program add nothing |
| `CfiStandard.PcValueAlone` | ddprof-lib/src/main/cpp/dwarf.cpp:297-307 | a pc expression of a base and pairs of constants and operators gives the rule of the standard |
| `CfiStandard.UsualInitialRules` | ddprof-lib/src/main/cpp/dwarf.cpp:186-194 | the initial instructions that compilers emit on x86-64 give the rules the parser starts with |
| `CfiStandard.RestoredReturnAddress` | ddprof-lib/src/main/cpp/dwarf.cpp:335-339 | offset and restore of the return address on x86-64: the parser keeps -16, the standard has -8 |
| `CfiParser.DwarfParser.ParseInstructions` | ddprof-lib/src/main/cpp/dwarf.cpp:182-344 | the loop adds exactly the rows of the program with one saved slot; an unknown instruction ends it without a last row |
| `CfiParser.DwarfParser.ParseExpression` | ddprof-lib/src/main/cpp/dwarf.cpp:349-398 | an unknown operation gives 0; a base followed by pairs of a constant and an operator gives the value that the operand stack of section 2.5 of DWARF 5 ends with, relative to the pc; the pointer stands behind the expression |
| `ExpressionStack.ParserEvaluatesPairs` | ddprof-lib/src/main/cpp/dwarf.cpp:349-398 | for a list of constants and operators that a stack can evaluate over a base: the two accumulators give the value of the stack for all constants and bases if and only if constants and operators come in pairs |
| `ExpressionStack.ExpressionAccumulates` | ddprof-lib/src/main/cpp/dwarf.cpp:349-398 | the parser runs its two accumulators over the terms in memory, and gives 0 if there is an unknown operation |
| `CfiParser.DwarfParser.ParseCie` | ddprof-lib/src/main/cpp/dwarf.cpp:145-158 | the alignment factors behind the augmentation string, unless the entry is empty |
| `CfiParser.DwarfParser.ParseFde` | ddprof-lib/src/main/cpp/dwarf.cpp:160-180 | the rows of one function and the default rule at its end are added; alignment comes from the first entry only |
| `FrameSection.FunctionThere` | ddprof-lib/src/main/cpp/dwarf.cpp:160-180 | a frame entry encoded for a function from start on, size bytes long, with a pc-relative pointer, any augmentation data and any program, is read as that start, that end and the rows of that program from the start on |
| `FrameSection.CommonThere` | ddprof-lib/src/main/cpp/dwarf.cpp:145-158 | the factors of an encoded common entry are read, whatever its augmentation string |
| `FrameSection.GapRules` | ddprof-lib/src/main/cpp/dwarf.cpp:178-179 | the default rule in numbers: on x86-64 register 6 plus 16, frame pointer at -16, return address at -8; on i386 5 plus 8, -8, -4; on AArch64 29 plus 0, 0, 8 |
| `FrameSection.FirstFrames` | ddprof-lib/src/main/cpp/dwarf.cpp:186-189 | the first rule of a function in numbers for the three architectures |
| `CfiParser.DwarfParser.Parse` | ddprof-lib/src/main/cpp/dwarf.cpp:120-143 | with a supported header the rows of all entries are added in order, otherwise none |
| `FrameSection.SectionRows` | ddprof-lib/src/main/cpp/dwarf.cpp:120-180 | for an encoded section (header table, frame entries, common entries that agree) these are the rows of exactly the functions it was encoded for, in order, with the default rule behind each |
| `CfiParser.AlignmentExact` | ddprof-lib/src/main/cpp/dwarf.cpp:160-172 | every entry is parsed with the alignment factors of its own common entry if and only if the common entries of all entries agree |
| `CfiParser.SecondCommonEntryIgnored` | ddprof-lib/src/main/cpp/dwarf.cpp:160-172 | a memory with two entries whose common entries have the factors 1, -8 and 4, -4: the second entry is parsed with 1, -8 |
| `CfiParser.ParsedTableByFunction` | ddprof-lib/src/main/cpp/dwarf.cpp:120-180 | if the entries are sorted and stay in their ranges, a parsed table gives every address the rule of its function |
| `BitmapPages.IdOfPlace` | ddprof-lib/src/main/cpp/threadFilter.h:39-51 | page, word and bit of an id determine the id |
| `BitmapPages.BitsAreMembers` | ddprof-lib/src/main/cpp/threadFilter.cpp:107-122 | setting and clearing a bit adds and removes exactly that id |
| `ThreadFilter.ThreadFilter.Accept` | ddprof-lib/src/main/cpp/threadFilter.cpp:88-91 | accepted are exactly the members in range; negative ids are not |
| `ThreadFilter.ThreadFilter.Add` | ddprof-lib/src/main/cpp/threadFilter.cpp:93-111 | the id joins the set, the size is its cardinality |
| `ThreadFilter.ThreadFilter.Remove` | ddprof-lib/src/main/cpp/threadFilter.cpp:113-123 | an id in range leaves the set, others change nothing |
| `ThreadFilter.ThreadFilter.Clear` | ddprof-lib/src/main/cpp/threadFilter.cpp:79-86 | the set is empty, pages stay |
| `ThreadFilter.ThreadFilter.Collect` | ddprof-lib/src/main/cpp/threadFilter.cpp:125-141 | exactly the members, strictly ascending, as many as the size says |
| `ThreadFilter.NextBit` | ddprof-lib/src/main/cpp/threadFilter.cpp:134-137 | clearing the lowest bit leaves exactly the later bits of the word |
| `ThreadFilter.InRangeHasPlace` | ddprof-lib/src/main/cpp/threadFilter.cpp:29-34 | every id below the maximum has a place for its page |
| `FilterRace.PageStepEffect` | ddprof-lib/src/main/cpp/threadFilter.cpp:93-123 | the set changes only at the fetch-and-or and fetch-and-and instructions, by exactly the id; what is not yet counted is owed by the thread |
| `FilterRace.AddTakesEffect` | ddprof-lib/src/main/cpp/threadFilter.cpp:93-111 | every add that returns has made the id a member at one of its steps, and counted it exactly if it was none before that step |
| `FilterRace.RemoveTakesEffect` | ddprof-lib/src/main/cpp/threadFilter.cpp:113-123 | every remove of an id in range that returns has seen no page for it, when it was no member, or has removed it at one of its steps, and counted that exactly if it was one |
| `FilterRace.SizeIsCardinality` | ddprof-lib/src/main/cpp/threadFilter.cpp:79-123 | in every run in which no update is under way while somebody clears: with no update and no clear under way, the size is the cardinality |
| `FilterRace.ClearExact` | ddprof-lib/src/main/cpp/threadFilter.cpp:79-86 | a clear with updates in the middle, at any of its page tests and stores: until the next clear the size, with nothing under way, is right if and only if at the store of the size the updates owed in sum as much as there were members again; otherwise it is off by the difference |
| `FilterRace.LateCount` | ddprof-lib/src/main/cpp/threadFilter.cpp:79-123 | from every reachable state in which one thread has changed its bit and not counted it, clearing and then counting leaves the empty set with the size 1 or -1 |
| `FilterRace.SizeStaysWrong` | ddprof-lib/src/main/cpp/threadFilter.cpp:79-111 | such a run exists for every page size and range: the set is empty, the size 1, nothing under way |
| `LivenessTracker.PositionsAscend` | ddprof-lib/src/main/cpp/livenessTracker.cpp:62-79 | the kept places ascend and are exactly the live ones |
| `LivenessTracker.LivenessTracker.Compact` | ddprof-lib/src/main/cpp/livenessTracker.cpp:57-81 | the in-place pass leaves the live entries, in order and aged, and gives back the references of the others, in order |
| `LivenessTracker.LivenessTracker.CleanupTable` | ddprof-lib/src/main/cpp/livenessTracker.cpp:39-89 | when it acts, forced or not, and what it leaves; ages stay right |
| `LivenessTracker.CleanupSplitsRefs` | ddprof-lib/src/main/cpp/livenessTracker.cpp:63-78 | every reference of the table is either kept or given back, once, and no live one is given back |
| `LivenessTracker.AgingExact` | ddprof-lib/src/main/cpp/livenessTracker.cpp:54 | ages stay the epoch minus the epoch of tracking if and only if fewer than 2^31 collections passed or nothing is kept |
| `LivenessTracker.LivenessTracker.Track` | ddprof-lib/src/main/cpp/livenessTracker.cpp:302-377 | a new entry of age 0 is stored; if the table is full, after a forced cleanup to the current epoch, which gives back the references of the dead, and a doubling of the capacity up to the maximum; at maximum capacity its reference is lost; what else the tracker keeps is stated for each case |
| `LivenessTracker.LivenessTracker.OnGC` | ddprof-lib/src/main/cpp/livenessTracker.cpp:385-391 | the epoch advances, ages stay right |

## Left out

- TraceTheorems.StoredTracesMatch: states it for the first table without condition; for all tables it needs the condition of `TraceMatch.TimelyTracesMatch`, and `TraceMismatch.ForeignTraceStored` shows it fail without.
- TraceTheorems.HashSitsOnce: speaks of the newest table; an older table loses keys to the clearing by a foreign slot number.
- TraceTheorems.EqualHashesEqualIds: speaks of puts into the newest table, for the same reason; `TraceMatch.TimelyIds` is for all tables under the same condition, and `TraceMismatch.SameIdForTwoHashes` shows it fail without.
- TraceTheorems.PutsAreConserved: puts into earlier tables are counted by their results, not by samples, since samples of older tables may be cleared.
- DictTheorems.OneKeyOneId: holds while the base numbers handed out fit in 32 bits, since ids are truncated.
- Dictionary.Dictionary.Collect: exact while ids fit in 32 bits.
- Dictionary.Dictionary.Clear: says which keys and tables are given back; the order of the stores that unlink them is not modelled.
- FilterRace.SizeIsCardinality: for runs whose clears meet no update under way; `ClearExact` says what happens otherwise. `memset` is taken to store whole words, in order, and one thread clears at a time.
- LivenessTracker.LivenessTracker.Track: sub-sampling, weights and the context are not modelled, and one thread uses the table at a time.
- FlightRecorder.Recording.Flush: `write` is complete, and lanes flush one at a time; partial writes are not modelled.
- Collecting traces or dictionary keys while puts or inserting lookups are under way.
- The hash functions (`calcHash`, FNV): any functions will do.
- `storeCallTrace`: the frames are carried along; that the allocator may fail is modelled.
- Settings, metadata and constant-pool writers: strings and multi-flush patching.
- The computation of float weights: their bits are parameters.
- Stack walking, signal handling, ELF and Mach-O parsing, the JVM interfaces, timers and counters.
- `SpinLock::reset`, which drops ownership by design.
- `strtol` parsing in `ThreadFilter::init`.
- CfiStandard.ParserExact: the frame address, the frame pointer and the return address only; a frame address given by an expression is compared by its length, as the parser does. The offset factor is even, not 0 and below 2^20 in size (`SaneAlign`). Programs are plain (`Plain`): left out are offsets of the frame pointer that are odd or that the parser keeps for "same value", the offset 0 of the return address where an empty frame has size 0, and the frame address registers 128 and 255, which it keeps for the PLT and for "invalid".
