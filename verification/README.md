# TécnicoFS and the broker's box list, verified in Dafny

This project models the in-memory file system TécnicoFS (`fs/state.c`, `fs/operations.c`) and the
sorted list of message boxes (`utils/utility_funcs.c`), and proves what their clients rely on.

TécnicoFS keeps an inode table, an open-file table, three first-fit allocation tables and one flat
byte array cut into blocks. The root directory is itself stored in one of the blocks, as 44-byte
records of a 40-byte name field and a 4-byte inumber. Nothing in the C code states how these tables
hang together. Here that is stated, proved over every run, and used to show that the whole is a map
from names to byte strings with handles into it.

## How the project is built

| file | content |
|---|---|
| `CMemory.dfy` | bytes, memory copies, 32-bit integers, `strlen`, `strcmp`, `strncmp`, `strncpy` |
| `TfsState.dfy` | the state of `state.c` as a value, and its primitives |
| `TfsOperations.dfy` | the five operations of `operations.c`, with 64-bit modular clipping |
| `Invariants.dfy` | the two invariants, and the directory seen through its bytes |
| `Preservation.dfy`, `Steps.dfy` | every operation on a sound or consistent state |
| `AbstractFs.dfy` | the abstract machine: names to byte strings, handles to name and offset |
| `Refinement.dfy`, `Counting.dfy`, `Simulation.dfy` | the abstraction, conservation, refinement of each operation |
| `NameMap.dfy` | the directory's bytes as a map: lookup, update, removal |
| `Layout.dfy` | what the primitives store, byte by byte and field by field |
| `Runs.dfy`, `Clients.dfy`, `Reading.dfy` | whole runs from `tfs_init`; chunked writes, round trips; complete reads |
| `Promises.dfy` | every call's results in path bytes, names, contents and handles, said without the operations or the abstract machine |
| `MicroSteps.dfy`, `Linearization.dfy`, `Threads.dfy` | threads under the global mutex, and what each of them observes |
| `TfsClass.dfy` | the imperative file system: arrays, scans and in-place updates |
| `BoxList.dfy` | `insertion_sort` on a linked list |

`TfsClass.Tfs` has the arrays of `state.c` as fields and its methods scan and update them in place.
Each method is proved to do to the arrays what the functions of `TfsState` and `TfsOperations` say,
and, when the call is disciplined, what the abstract machine says. `TfsClass.WriteAndReadBack` is a
client that reasons from those contracts alone. The theorems about runs are
about those functions. They are total: a failed `ALWAYS_ASSERT`, or a copy that leaves the byte
array, is the outcome `Panic`. "No assertion fails" is therefore a theorem, and the methods ask of
their caller only that the call does not panic.

Two invariants are proved:

* `Sound` holds, even when files are unlinked or truncated under open handles, in exactly the runs
  in which no read is out of bounds: a read must start within its file, ask for nothing, or, when a
  truncation has left its offset past the end, stay within a valid block. `Sound` says that live
  files own pairwise distinct TAKEN blocks other than the root's, that directory records match live
  inodes one to one under unique names, and that offsets stay within a block.
* `Consistent` adds that every open handle names a live file and is within it, and that every TAKEN
  block has an owner. It is kept by a call exactly when the call is disciplined: unlink only a file
  with no open handle, truncate only a file whose open handles are all at offset 0. The assertion
  messages of `operations.c` take this for granted, but `inode_get` never returns NULL, so the code
  does not enforce it. `Runs.PremisesAreNeeded` is a run that breaks it in three calls, and ends in a
  read that fails an assertion or leaves an offset past its block.

Premises, all explicit:

* parameters are symbolic: a positive block size, table sizes (the directory's included) within
  `INT_MAX`, total storage within `SSIZE_MAX`; the defaults 64/1024/16/1024 meet them;
* `to_write <= SIZE_MAX - BLOCK_SIZE` and `len <= SIZE_MAX`;
* nothing is assumed about the memory that `malloc` returns. The name fields of fresh directory
  records are never written, and `clear_dir_entry` compares names without testing `d_inumber`; this
  is harmless because records are handed out first fit, so an unused record that was never used
  comes after every used one. The invariant says so, and `Invariants.ClearFindsSameSlot` uses it.
  Only a name that was not looked up first can match such a record; there `clear_dir_entry` returns 0
  where its documentation says -1 (`NameMap.ClearFailsIffUnnamed`, `NameMap.LeftoverMatches`);
* the open mode is a triple of flags instead of the or of three bits.

Addresses are products of a block number and the block size. `CMemory.Times` defines that product by
repeated addition, so that the proofs about addresses stay linear.

## Model

| member | source | states |
|---|---|---|
| CMemory.CompareIsEquality | projeto-so-2022-23/fs/state.c:391-394 | `strncmp` with a bound past the terminator, and `strcmp`, are zero exactly when memory holds the given string |
| CMemory.StoredNameReadsBack | projeto-so-2022-23/fs/state.c:352-353 | a name of at most 39 bytes stored by `strncpy` and the final NUL reads back as itself |
| CMemory.DecodeEncodeInt | projeto-so-2022-23/fs/state.c:351 | every 32-bit inumber survives being stored in a record |
| TfsState.FirstFree | projeto-so-2022-23/fs/state.c:162-179 | the scan returns the least FREE index, and -1 exactly when none is FREE |
| TfsState.FirstUnused | projeto-so-2022-23/fs/state.c:349-350 | the directory scan returns the least unused record |
| TfsOperations.WriteClipIsMinIff | projeto-so-2022-23/fs/operations.c:204-208 | the modular write clip is the intended minimum if and only if the sum does not wrap |
| TfsOperations.ReadClipIsMinIff | projeto-so-2022-23/fs/operations.c:263-267 | the modular read clip is the intended one if and only if the read does not start past the end or asks for nothing |
| Invariants.FindSlotIsLookup | projeto-so-2022-23/fs/state.c:375-400 | the lookup finds the record with that name if there is one; a name of 40 bytes or more matches none |
| Invariants.ClearFindsSameSlot | projeto-so-2022-23/fs/state.c:308-315 | the unguarded `strcmp` scan stops at the very record that the guarded `strncmp` scan found |
| Invariants.DirAfterWriteSlot | projeto-so-2022-23/fs/state.c:349-357 | overwriting a record's bytes changes that record of the decoded directory and no other |
| Invariants.EntryReadsBack | projeto-so-2022-23/fs/state.c:351-353 | names of 1 to 39 bytes and inumbers round-trip through the 44 bytes of a record |
| Invariants.CopyStaysInBlock | projeto-so-2022-23/fs/state.c:448-454 | bytes copied into one block leave every other block of the flat array as it was |
| Preservation.CopyKeepsDir | projeto-so-2022-23/fs/operations.c:225-236 | a write's copy never reaches the directory |
| Preservation.RemoveDir | projeto-so-2022-23/fs/operations.c:313-320 | after the lookup, freeing the inode and clearing the record both succeed, and exactly that record goes |
| Steps.UnlinkOutcome | projeto-so-2022-23/fs/operations.c:286-328 | unlink is atomic: it either changes nothing and returns -1, or frees the inode and clears its record and returns 0 |
| Steps.OpenNewOutcome | projeto-so-2022-23/fs/operations.c:118-141 | creation either fails with the allocation tables and directory restored, or adds exactly one inode and one record |
| Steps.WriteOutcome | projeto-so-2022-23/fs/operations.c:204-236 | a write clips to its block, allocates exactly when the file is empty, and copies only into its own block |
| Preservation.ReadMovesOffset | projeto-so-2022-23/fs/operations.c:263-277 | a read returns the bytes between the offset and the clipped end, and moves only its own offset |
| Steps.SoundStep | projeto-so-2022-23/fs/operations.c:79-328 | on a sound state no call whose read, if it is one, is in bounds fails an assertion, and the state stays sound, also under unlink and truncate of open files |
| Steps.SoundStepIff | projeto-so-2022-23/fs/operations.c:79-328 | and no other call does: a call runs and leaves a sound state if and only if it is not a read out of bounds |
| Steps.ReadStaysSoundIff | projeto-so-2022-23/fs/operations.c:245-284 | a read past the end of its file wraps its clip; it is harmless if and only if it asks for nothing or stays within a valid block |
| Steps.DirectoryUntouched | projeto-so-2022-23/fs/operations.c:186-284 | no write, through a live or a stale handle, and no read or close changes the directory |
| Steps.ConsistentStep | projeto-so-2022-23/fs/operations.c:79-328 | a call on a consistent state leaves a consistent state if and only if it is disciplined |
| Steps.InitConsistent | projeto-so-2022-23/fs/operations.c:25-44 | `tfs_init` succeeds exactly when there is an inode and a block for the root, whatever memory `malloc` returned, and then everything is empty and consistent |
| Layout.InodeCreateFails | projeto-so-2022-23/fs/state.c:198-225 | creation of an inode fails exactly when no inode is FREE or, for a directory, no block is, and leaves the allocation tables and the bytes as they were |
| Layout.FileCreated | projeto-so-2022-23/fs/state.c:235-239 | a new file takes the least FREE inode; its record has size 0 and block -1 |
| Layout.DirectoryCreated | projeto-so-2022-23/fs/state.c:208-234 | a new directory takes the least FREE inode and block, and stores -1 at the inumber of every record that fits, and no other byte |
| NameMap.AddIsUpdate | projeto-so-2022-23/fs/state.c:333-360 | `add_dir_entry` fails, changing nothing, if and only if the name is empty or too long or one more 44-byte record does not fit the block; otherwise the directory stays well formed if and only if name and inumber were not in use, and then it is the map with that name added |
| Layout.AddStores | projeto-so-2022-23/fs/state.c:349-357 | it stores exactly the 44 bytes of the first unused record: the name, zeros up to byte 40, the inumber low byte first |
| NameMap.ClearIsRemoval | projeto-so-2022-23/fs/state.c:285-316 | `clear_dir_entry` of any name is map removal; a name that is there is always found; the call returns -1 and changes nothing if and only if the memory of no record, used or not, holds the name |
| Layout.ClearStores | projeto-so-2022-23/fs/state.c:308-315 | it stores exactly 40 zeros and -1 in one record whose memory held the name |
| Layout.NotADirectory | projeto-so-2022-23/fs/state.c:297-381 | lookup, adding and clearing refuse an inode that is not a directory |
| NameMap.ClearFailsIffUnnamed | projeto-so-2022-23/fs/state.c:285-316 | for a name of less than 40 bytes, -1 is returned if and only if no record, used or not, has that name in its field; for an absent name that is exactly when the documented error is returned |
| NameMap.LeftoverMatches | projeto-so-2022-23/fs/state.c:308-315 | an instance where it is not returned: right after `tfs_init` on memory that starts with a name, clearing that name gives 0 although the directory is empty |
| NameMap.FindIsLookup | projeto-so-2022-23/fs/state.c:375-400 | `find_in_dir` is map lookup: the inumber of a name that is there, -1 for any other |
| Refinement.CopiedContent | projeto-so-2022-23/fs/operations.c:225-235 | the file's bytes after a write are the old ones overwritten from the offset on, grown if needed |
| Refinement.OtherContent | projeto-so-2022-23/fs/operations.c:225-235 | the copy leaves the bytes of every other file as they were |
| Counting.Conservation | projeto-so-2022-23/fs/state.c:162-179 | TAKEN blocks are 1 + non-empty files, TAKEN inodes are 1 + files, used records are files, TAKEN handles are the open ones |
| Counting.ScansFailByCount | projeto-so-2022-23/fs/state.c:410-480 | each of the four scans fails exactly when the number of files, of non-empty files or of open handles says that its table is full |
| Simulation.WriteRefines | projeto-so-2022-23/fs/operations.c:186-243 | write does to names and byte strings what the abstract machine does, with the same result |
| Promises.WriteStores | projeto-so-2022-23/fs/operations.c:186-243 | byte by byte, what a write through an open handle stores, what it returns, and exactly when it fails |
| Promises.WrappedWritePanics | projeto-so-2022-23/fs/operations.c:204-208 | a write whose length and offset add up past `size_t` is not clipped: unless it fails for lack of a block, its copy leaves the byte array |
| Simulation.OpenRefines | projeto-so-2022-23/fs/operations.c:79-161 | open, in every mode and every way of failing, follows the abstract machine |
| Promises.BadPathFails | projeto-so-2022-23/fs/operations.c:53-55 | open and unlink of no path, or of one shorter than two bytes or without a leading slash, return -1 and change nothing |
| Promises.PathMeansName | projeto-so-2022-23/fs/operations.c:69-76 | every other path is a slash and a name, and means that whole name |
| Promises.OpenNamed | projeto-so-2022-23/fs/operations.c:99-116 | opening slash and a name that is there gives the least closed handle of that file, at its end in append mode and at 0 otherwise, after truncation if asked |
| Promises.OpenUnnamed | projeto-so-2022-23/fs/operations.c:117-161 | opening a name that is not there creates it exactly when asked to, with at most 39 bytes, an inode left, and room for one more 44-byte record in the block; otherwise -1 and nothing shows |
| Simulation.UnlinkRefines | projeto-so-2022-23/fs/operations.c:286-328 | a disciplined unlink removes one name from the abstract map |
| Promises.UnlinkReturns | projeto-so-2022-23/fs/operations.c:286-328 | unlink of slash and a name returns 0 exactly when the name is there, and otherwise -1 with no change, on every sound state |
| Promises.UnlinkNamed | projeto-so-2022-23/fs/operations.c:286-328 | unlinking a file that is not open removes that name and nothing else |
| Refinement.ReadRefines | projeto-so-2022-23/fs/operations.c:245-284 | a read returns the bytes of the abstract file from the abstract offset on |
| Promises.ReadReturns | projeto-so-2022-23/fs/operations.c:245-284 | a read through an open handle returns the bytes from its offset on, as many as asked for or as there are, and moves that offset |
| Refinement.CloseRefines | projeto-so-2022-23/fs/operations.c:163-184 | close removes one abstract handle |
| Promises.ClosedHandlesFail | projeto-so-2022-23/fs/operations.c:163-258 | close, write and read of a handle that is not open return -1 and change nothing; close returns 0 exactly for an open one; on any state |
| Promises.CloseRemoves | projeto-so-2022-23/fs/operations.c:163-184 | close removes exactly that handle |
| Simulation.DisciplineIsAbstract | projeto-so-2022-23/fs/operations.c:200-202 | whether a call is disciplined can be read off names, handles and offsets alone |
| Simulation.StepRefines | projeto-so-2022-23/fs/operations.c:79-328 | every disciplined call on a consistent state runs without a failed assertion, returns what the abstract machine returns and represents the state it moves to |
| Simulation.AlphaWellFormed | projeto-so-2022-23/fs/state.h:12-38 | represented states have names of 1 to 39 bytes, contents within a block, handles within their files, and table counts within bounds |
| Runs.InitialRunRefines | projeto-so-2022-23/fs/operations.c:25-328 | every disciplined run from `tfs_init` shows its client the results and states of the abstract machine |
| Runs.TameRunIsSound | projeto-so-2022-23/fs/operations.c:79-328 | what survives without discipline, over whole runs in which no read is out of bounds |
| Runs.SoundAllAlongIff | projeto-so-2022-23/fs/operations.c:79-328 | these are exactly the runs whose every call completes and whose every state is sound |
| Runs.ConsistentAllAlongIff | projeto-so-2022-23/fs/operations.c:79-328 | and a run keeps every state consistent if and only if it is disciplined |
| Runs.PremisesAreNeeded | projeto-so-2022-23/fs/operations.c:105-111 | a concrete run from `tfs_init` in which a truncation under an open handle leaves an inconsistent state, and a read of one byte then fails an assertion or leaves an unsound one |
| Runs.OpenedHandleIsFresh | projeto-so-2022-23/fs/state.c:468-480 | a returned handle is distinct from every handle open at that moment |
| Runs.FailureLeavesNoTraceIff | projeto-so-2022-23/fs/operations.c:79-328 | a call that fails changes something else than the record of an inode that is still FREE if and only if it is an open that finds the open-file table full when there are bytes to truncate or a file that can be created |
| Runs.FailedOpenKeepsFile | projeto-so-2022-23/fs/operations.c:118-160 | from `tfs_init` with one open-file entry, the second of two creating opens fails and leaves its file behind |
| Runs.FullTableKeepsFile | projeto-so-2022-23/fs/operations.c:149-160 | with the open-file table full the open fails, but a file to be created or truncated is created or truncated all the same |
| Runs.WriteFailsIff | projeto-so-2022-23/fs/operations.c:210-220 | a write fails if and only if the file is empty, there is something to write, and non-empty files + 1 is the number of blocks |
| Runs.OpenFailsIff | projeto-so-2022-23/fs/operations.c:79-161 | an open fails if and only if as many handles are open as the table has entries, or the path names no file and none is or can be created |
| Runs.CreateFailsIff | projeto-so-2022-23/fs/operations.c:118-138 | a file is created unless the name is invalid or too long, files + 1 is the number of inodes, or one more record does not fit the directory |
| Runs.WriteStaysInOneBlock | projeto-so-2022-23/fs/operations.c:225-229 | a write through any handle changes bytes of at most one block, never of the root directory's |
| Runs.WriteChangesOnlyItsFile | projeto-so-2022-23/fs/operations.c:186-243 | a write changes no byte of another file, no other handle and no directory record |
| Runs.ClipsAreExact | projeto-so-2022-23/fs/operations.c:204-267 | on consistent states neither clip ever wraps |
| Runs.NoLeaks | projeto-so-2022-23/fs/state.c:115-125 | once every handle is closed and every file unlinked, the three allocation tables are as they were after `tfs_init` |
| Runs.SecondInit | projeto-so-2022-23/fs/state.c:95-100 | a second initialization returns -1 and touches no table, but replaces the parameters; the tables keep the sizes their bounds checks go by if and only if these are the same |
| Runs.DefaultParamsValid | projeto-so-2022-23/fs/operations.c:15-23 | the default parameters meet every premise |
| Clients.WriteChunking | projeto-so-2022-23/fs/operations.c:186-243 | writing buffers one after the other gives the contents, offset and byte count of one write of their concatenation |
| Reading.InterleavedReads | projeto-so-2022-23/fs/operations.c:245-284 | whatever calls come between them, as long as they neither close the handle nor change its file, the reads of a handle return the bytes from its offset on, as many as asked for or as there are |
| Reading.ReadsWholeFile | projeto-so-2022-23/fs/operations.c:245-284 | on the tables: such reads that ask for at least the rest of the file return exactly that rest, and every later read of the handle returns 0 |
| Reading.ReadUntilZero | projeto-so-2022-23/fs/operations.c:263-277 | a read of a positive length returns 0 if and only if the reads before it have returned all there was |
| Reading.ReadsAreConsecutive | projeto-so-2022-23/fs/operations.c:263-277 | with no other call in between, the reads move the offset and change nothing else |
| Reading.ReadProgress | projeto-so-2022-23/fs/operations.c:263-277 | each read of a positive length makes `i_size - of_offset` strictly smaller, until it is 0, and then returns 0 and changes nothing |
| Clients.ConcreteRoundTrip | projeto-so-2022-23/fs/operations.c:99-141 | write, close, reopen and read, of a file that exists or that the open creates: plain overwrites a prefix, append adds at the end, truncate leaves just the data, each clipped to a block |
| MicroSteps.BodyIsOperation | projeto-so-2022-23/fs/operations.c:79-328 | the micro-steps of each body, run without interruption, are its operation |
| Linearization.EveryInterleavingIsSequential | projeto-so-2022-23/fs/operations.c:13 | every interleaving has the results and the state of whole operations run in the order in which the mutex was taken, each thread's in its own order |
| Linearization.ConsistentWheneverFree | projeto-so-2022-23/fs/operations.c:79-328 | if every body begins disciplined, the tables are consistent whenever the mutex is free and no thread fails an assertion |
| Linearization.HolderReleases | projeto-so-2022-23/fs/operations.c:79-328 | the holder of the mutex gives it back after boundedly many turns of its own |
| Linearization.CallCompletes | projeto-so-2022-23/fs/operations.c:79-328 | with the mutex free, a thread given enough turns carries out its next call with the state and the result of that operation |
| Threads.ThreadsRefine | projeto-so-2022-23/fs/operations.c:13 | if the calls that have ended are, in lock order, a disciplined run, every thread has got the results of the abstract machine, and a free mutex leaves its state |
| Threads.ThreadReadsFile | projeto-so-2022-23/fs/operations.c:245-284 | a thread that alone reads through a handle gets the bytes of its file in order, whatever the schedule and whatever calls of other threads that spare handle and file |
| Linearization.UnlinkBreaksInvariantMidway | projeto-so-2022-23/fs/operations.c:313-314 | between its two halves, reached by a thread that holds the mutex, an unlink leaves a record that names a FREE inode |
| Linearization.CreateBreaksInvariantMidway | projeto-so-2022-23/fs/operations.c:118-129 | between taking an inode and adding its record, a creation leaves a TAKEN inode without a record |
| Linearization.WriteBreaksInvariantMidway | projeto-so-2022-23/fs/operations.c:210-220 | between taking a block and storing its number, the first write to an empty file leaves a TAKEN block without an owner |
| TfsClass.Tfs.TfsInit | projeto-so-2022-23/fs/operations.c:25-44 | the tables are allocated, all new, and the root created; on success the file system is empty and consistent |
| TfsClass.WriteAndReadBack | projeto-so-2022-23/fs/operations.c:25-284 | initialize, create, write, close, reopen and read, by the contracts of the methods alone: it succeeds exactly when the tables have room, and reads back the data clipped to a block |
| TfsClass.Tfs.InodeCreate | projeto-so-2022-23/fs/state.c:198-244 | both kinds of inode, and the rollback when a directory gets no block |
| TfsClass.Tfs.TakeFirstFree | projeto-so-2022-23/fs/state.c:410-423 | the in-place scan takes the least FREE entry and changes no other |
| TfsClass.Tfs.FindInDir | projeto-so-2022-23/fs/state.c:375-400 | the loop over the records of the byte array is the lookup |
| TfsClass.Tfs.AddDirEntry | projeto-so-2022-23/fs/state.c:333-360 | stores a record in the first unused slot of the byte array, or fails and changes nothing |
| TfsClass.Tfs.ClearDirEntry | projeto-so-2022-23/fs/state.c:297-316 | clears the first record that `strcmp` matches |
| TfsClass.Tfs.TfsOpen | projeto-so-2022-23/fs/operations.c:79-161 | does to the arrays what the model says, and follows the abstract machine when disciplined |
| TfsClass.Tfs.TfsClose | projeto-so-2022-23/fs/operations.c:163-184 | as above, for close |
| TfsClass.Tfs.TfsWrite | projeto-so-2022-23/fs/operations.c:186-243 | as above, for write |
| TfsClass.Tfs.TfsRead | projeto-so-2022-23/fs/operations.c:245-284 | as above, for read; the rest of the caller's buffer is untouched |
| TfsClass.Tfs.TfsUnlink | projeto-so-2022-23/fs/operations.c:286-328 | as above, for unlink |
| BoxList.CompareTransitive | projeto-so-2022-23/utils/utility_funcs.c:39-48 | the `strcmp` order on names is transitive, strictly so if either step is strict |
| BoxList.CompareIsLexicographic | projeto-so-2022-23/utils/utility_funcs.c:39-48 | it is the lexicographic order of bytes |
| BoxList.PositionSplits | projeto-so-2022-23/utils/utility_funcs.c:46-49 | on a sorted list the walk stops right after the strictly smaller boxes |
| BoxList.List.InsertionSort | projeto-so-2022-23/utils/utility_funcs.c:35-53 | on any acyclic list the relinked list is the old one with the new box at that place; a sorted list stays sorted |
| BoxList.InsertAllSorts | projeto-so-2022-23/utils/utility_funcs.c:35-53 | inserting any boxes into an empty list gives a sorted permutation with equal names in reverse order of insertion |
| BoxList.ListBoxes | projeto-so-2022-23/manager/manager.c:116-120 | the linked list built from the boxes that arrive, each field kept in its place, is that sorted permutation of them, chained from its head to null |
| BoxList.Box.constructor | projeto-so-2022-23/utils/utility_funcs.c:8-19 | a new box holds the given name and counts and is not linked |

## Left out

- The class `Tfs` is initialized once; what a second `tfs_init` does is stated on values, by `Runs.SecondInit`.
- `tfs_destroy`, failing `malloc`, and error codes of the mutex functions: allocation and locking succeed.
- `insert_delay`, logging and warnings: no effect on the state.
- Linearization.HolderReleases: a body that has ended gives the mutex back in one step of its thread; that each exit of `operations.c` contains its unlock is read off the code and not proved.
- Linearization.EveryInterleavingIsSequential: the scans inside one primitive of `state.c`, such as the walk over the directory, are one micro-step each; under the mutex nothing can come between.
- Offsets and sizes in the tables are natural numbers; that they stay within a block, far from the bounds of `size_t`, is proved of every run in which no read is out of bounds.
- `tfs_sym_link`, `tfs_link` and `tfs_copy_from_external_fs` are declared but have no code.
- `find_box` and `remove_box`: the first stops at the first box whose name differs, and the loop of the second never advances, so the code does not decide what they promise.
- `producer-consumer.c`, `mbroker.c`, `manager.c` but for its list of boxes, `pub.c`, `sub.c` and the request plumbing: pipes, signals and message formats.
- Field contents of a box other than its name take no part in the list and are kept as given.
