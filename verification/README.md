# A verified model of libsei

libsei protects an event handler against silent data corruption: it runs the handler N times,
logs what each run writes, rewinds memory between the runs, compares the runs and only then
commits.  This project models the library in Dafny and proves what that machinery guarantees.

`dafny verify dfyconfig.toml` checks all files.

| files | what they model |
|---|---|
| `FiniteSets`, `Octets`, `Memory`, `Words`, `UndoLog`, `Compare` | byte memory, logs of writes, swapping, restoring and comparing logs |
| `Abuf`, `Rollback` | the append-only log of src/abuf.c |
| `Deferred` | src/talloc.c, src/tbin.c, src/wts.c, src/cfc.c |
| `Crc32c`, `CrcSoftware`, `CrcHardware`, `CrcApi`, `Obuf` | CRC-32C, src/crc.c and the output queues of src/obuf.c |
| `CrcStandard`, `CrcDetection`, `InputMessages` | why that checksum is CRC-32C, what it detects, and what this means for input messages |
| `Handler`, `Engine`, `Transactions`, `Runs`, `Attempts` | handlers, src/mode_cow.c, and whole transactions, faulty and fault-free, with rollbacks |
| `Agreement` | what a commit says about the phases behind it |
| `Server` | a server loop on top of the engine, as in examples/simple |
| `TwoPhase`, `TwoPhaseCommit`, `TwoPhaseProgress`, `TwoPhaseAlone`, `Tbar`, `TbarChecks` | the two-phase-locking build of src/tmi.c and the traversal barrier of src/tbar.c, as interleaved steps |
| `Cow` | the bucketed copy-on-write buffer of src/cow.c |
| `HashTable`, `IteratorLinks`, `Ukv` | the chained hash table, its iterator, also with its pointers, and the key-value store of examples/ukv |
| `PowersOfTwo`, `Heap` | the free-list heap of src/heap.c |
| `CpuIsolation` | src/cpu_isolation.c and the retry loops |
| `Strtol`, `Numerals` | src/libc/stdlib/strtol.c, and numbers written out and read back |

Conventions.  `assert` and `fail_ifn` in the source are both treated as checks: a method says with
a result (`ok`, an option, an outcome) exactly when the check lets it go on.  A handler is a
deterministic program, a function from what it has observed so far to its next action.  A faulty
phase may perform any actions at all.  The number of phases N (`level`) is a parameter, fixed for a
run.  Results of the allocator, of clocks and of faults are parameters.

## What the code does not do

Where a property one would expect is false of the code, the model keeps the code's behaviour, gives
the input that shows it and proves the exact condition.

- Comparing logs by start address is sound exactly when no byte's last writer may be forgiven
  (`SoundExactlyWhenLastWritersChecked`), and free of false alarms exactly when every disturbed entry
  may be forgiven and they fit the conflict table (`AlarmFreeExactlyWhenForgiven`).  The start address
  alone decides what is forgiven, sizes do not (`LaterEntrySoundExactly`, `LaterEntryAlarmFreeExactly` and
  their counterparts for the other rule).  With more than one write to an address the `try` and n-way
  comparators can accept two different runs.
- `abuf_cmp_heap` lets one conflict too many through its bound: conflict number 8001 is stored outside the
  table (`Abuf.CmpHeap`, src/abuf.c:271-277).  Fault-free phases can get there exactly when more than 8000
  of their writes are disturbed by later ones (`OverrunExactlyWhenDisturbed`), for instance by writing
  one byte 8002 times, but not 8001 times (`TableOverruns`).
- A commit means that all phases computed the same memory, for all values, exactly when every last writer
  is checked and there are only two phases or nothing is written (`AgreementExactly`): with three or more
  the values written by the phases in between are never compared (`MiddleValuesUnchecked`).  A handler with deferred calls then never commits, because only the first
  two phases defer them (`Execute`).  The comment at src/mode_cow.c:1004-1009 says the logs of these
  phases hold old values; they have been swapped and hold new ones.
- A commit makes the deferred calls and frees before its last checks.  A transaction that does not commit
  has had effects exactly if the comparison accepts, the phases agree on the calls and there was something
  to do, and then the allocation counts differ or, in the build without retries, the frees disagree, one
  of them is NULL or the input is wrong (`StopsWithEffectsExactly`, `PlainStopsWithEffectsExactly`).  A
  handler that defers a call and frees NULL has its call made before the process stops
  (`CallMadeThenStopped`).
- Rolling back replays the first log oldest first: without blocks, start memory comes back for all values
  exactly when no two accesses overlap (`RestoreExactlyWhenDisjoint`).  A failed verification is only noticed after
  the first log was swapped; the rollback then writes the first phase's new values and restores memory
  outside the transaction's blocks, for all values, exactly when nothing was written there
  (`LateRollbackExactlyWhenNothingWritten`).  The next attempt starts from that memory (`RunAttempts`).
- A rollback also forgets messages of earlier transactions that are still waiting to be sent
  (`Sei.Rollback`).
- A handler may commit with a message it has begun and not finished, which the next transaction then
  continues; the queues are clean for it exactly if the handler finished what it began
  (`IdleExactlyWhenFinished`).
- The bucketed write-through build compares the first buffer again after emptying it: with three or more
  phases only transactions that change nothing pass (`ManyPhases`).
- A handler that locks a mutex it has taken before never goes on (`LocksAgainForGood`).
- `free(NULL)` in a handler is recorded like any other and makes verification fail (`Passes`).
- `tbar_check` reads a 64-bit counter through an `int`: some run from an initial state returns 1 while a
  traversal in progress at counter value c has not ended exactly if bit 31 of c is set and its upper half
  is not all ones (`EarlyExactlyWhenMisread`).  What each look of a check settles is stated exactly, and
  below 2^31 a check returns 1 once everybody has left (`GrantedExactly`, `GrantedOnceAllLeft`).
- `heap_malloc` accepts requests up to 1 MB, but stays inside its table of free lists exactly when request
  and header together do (`Heap.Malloc`).
- `hashtable_expand` reverses the entries of each key (`HashTable.Expand`); the store never has more than
  one.
- `strtol` gives back the beginning of the text as the end for a `0x` that no digit follows, and differs
  from section 7.22.1.4 of ISO C11 exactly there (`EndsAgreeExactly`).
- `wts_add` checks its bound after moving the counter: one call fewer fits (`Wts.Add`).
- `cpu_isolation_init` accepts 128 cores, for which its mask is an undefined shift; the model covers up
  to 127.

## Model

| member | source | states |
|---|---|---|
| `UndoLog.SwapRestores` | src/abuf.c:565-597 | for any writes, overlapping and of mixed sizes, swapping the undo log with the memory they left gives the start memory and turns the log into a redo log whose entry k is write k |
| `UndoLog.SwapIsInvertible` | src/abuf.c:565-597 | swapping again, in the opposite order, gives back memory and log |
| `UndoLog.RestoreDisjoint` | src/abuf.c:612-642 | replaying the undo log oldest first restores the start memory if no two accesses overlap |
| `UndoLog.SharedByteNotRestored` | src/abuf.c:612-642 | if two accesses share a byte there are values for which it does not |
| `UndoLog.RestoreExactlyWhenDisjoint` | src/abuf.c:612-642 | it restores memory for all values exactly when the accesses are pairwise disjoint |
| `Words.PickPut` | src/cow_helpers.h:45-61 | a value comes back from the word it was put in, at any address |
| `Compare.CheckedRunsAgree` | src/abuf.c:284-376 | two executions from one memory with the same places written: if the comparison accepts and checks every last writer, their memories are equal everywhere |
| `Compare.SoundExactlyWhenLastWritersChecked` | src/abuf.c:330-371 | it accepts only equal memories, for all values, exactly when no byte's last writer may be forgiven |
| `Compare.LaterEntrySoundExactly` | src/abuf.c:330-371 | written out for the aborting comparison: sound exactly when every byte of an entry whose start address comes again later is written again later, whatever the sizes |
| `Compare.AnyEntrySoundExactly` | src/abuf.c:539-547 | for the other comparisons: of every entry whose start address occurs in another one |
| `Compare.ForgivenByteUnsound` | src/abuf.c:539-547 | values for which a forgiven last writer makes two different runs pass |
| `Compare.AlarmFreeExactlyWhenForgiven` | src/abuf.c:284-376 | two identical runs always pass exactly when every disturbed entry may be forgiven and no more are disturbed than the table holds |
| `Compare.LaterEntryAlarmFreeExactly` | src/abuf.c:330-345 | written out for the aborting comparison: every entry that a later one overlaps has a later one with its start address, and no more are overlapped than the table holds |
| `Compare.AnyEntryAlarmFreeExactly` | src/abuf.c:539-547 | for the other comparisons: has another one with its start address |
| `Compare.ShorterStorePasses` | src/abuf.c:330-345 | a store and then a shorter one to the same address pass in fault-free runs, whatever the values |
| `Compare.WorstCaseConflicts` | src/abuf.c:300-328 | values for which every disturbed entry is a conflict |
| `Compare.OverrunExactlyWhenDisturbed` | src/abuf.c:271-277 | two identical runs can run past a table of any size exactly when more entries are disturbed than it holds |
| `AbufModule.TableOverruns` | src/abuf.c:271-277 | one byte written n times by both phases can do so for the table of 8000 exactly if n is at least 8002 |
| `Compare.DisjointOrIdenticalIsChecked` | src/abuf.c:330-371 | accesses that are disjoint or identical: the aborting comparison checks every last writer and forgives exactly the superseded entries |
| `Compare.AnyEntryChecksExactlyWithoutRepeats` | src/abuf.c:943-951 | the other comparisons check every last writer of such accesses exactly when no address repeats |
| `Compare.RulesAgreeWithoutRepeats` | src/abuf.c:414-562 | without repeated addresses the two rules give one verdict |
| `AbufModule.Abuf.Push` | src/abuf.c:217-228 | appends one access with its value to the log |
| `AbufModule.Abuf.Pop` | src/abuf.c:178-191 | gives the next entry's value, or says which check it failed |
| `AbufModule.Abuf.SwapWithMemory` | src/abuf.c:572-597 | memory and log become the swap of memory and log |
| `AbufModule.Abuf.CmpHeap` | src/abuf.c:284-376 | accepts exactly when the logs agree in length, address and size, conflicts fit the table and every one is superseded later; runs past the table exactly at one conflict too many |
| `AbufModule.Abuf.TryCmpHeap` | src/abuf.c:414-562 | accepts exactly when the logs agree, conflicts fit and every conflicting address is logged twice; leaves the pop counters as they were |
| `AbufModule.TryCmpHeapNway` | src/abuf.c:965-1131 | the same for n logs, changing nothing |
| `AbufModule.CmpHeapNway` | src/abuf.c:849-953 | the same verdict from the aborting form, which uses up the logs |
| `Rollback.RestoreFiltered` | src/abuf.c:647-706 | replays the log, skipping the transaction's blocks and clearing pointers into them |
| `Rollback.RollbackOutcome` | src/abuf.c:647-706 | after a fault in the first phase with disjoint accesses: a location that starts in a block keeps what was written, another eight-byte one whose bytes are an address inside a block ends as eight zero bytes, the rest end at their start values, and nothing else changes |
| `Rollback.PointerValueOfEight` | src/abuf.c:671-679 | the address eight bytes stand for: their values times 1, 2^8, up to 2^56 |
| `Rollback.NothingDangles` | src/abuf.c:666-679 | if no start value is an address inside a block, none is left at a logged location outside the blocks |
| `Rollback.LateRollback` | src/mode_cow.c:924-940 | after a switch, the same three cases with any blocks: what the last phase wrote in a block, eight zero bytes where the last phase left an address inside a block, the first phase's new value otherwise, and nothing else changes |
| `Rollback.LateRollbackWithoutBlocks` | src/mode_cow.c:924-940 | without blocks, for overlapping accesses too: bytes the first phase wrote get its new values, the others what the last phase left |
| `Rollback.LateRollbackExactlyWhenNothingWritten` | src/mode_cow.c:924-940 | so memory outside the blocks is restored for all values, whatever the accesses, exactly when nothing was written outside them |
| `Deferred.Talloc.Malloc` | src/talloc.c:80-108 | the first phase records what the allocator gives, later phases replay it; exact room condition |
| `Deferred.Talloc.Clean` | src/talloc.c:122-151 | succeeds exactly in the last phase with equally many allocations in all phases, and starts over |
| `Deferred.Talloc.Rollback` | src/talloc.c:182-214 | frees every recorded block once, in order, and starts over |
| `Deferred.Talloc.AddrInRange` | src/talloc.c:226-242 | says exactly whether some recorded block with a non-null address starts at or below the address and ends above it |
| `Deferred.SamePointersAgree` | src/tbin.c:96-124 | the item-by-item checks amount to: all phases recorded the same non-null pointers |
| `Deferred.Tbin.CanFlush` | src/tbin.c:96-124 | true exactly if all phases recorded the same pointers and none is NULL |
| `Deferred.Tbin.Flush` | src/tbin.c:126-176 | frees each pointer once, in order, up to the first item that is not the same non-null pointer in all phases; nothing if the counts differ |
| `Deferred.AgreedFrees` | src/tbin.c:126-176 | all of them, if all phases recorded the same non-null pointers |
| `Deferred.FreesDoneExactly` | src/tbin.c:126-176 | what a flush frees is a common beginning of all phases without NULL, and it stops only at a NULL, at an item on which two phases differ, or at the end |
| `Deferred.Wts.Add` | src/wts.c:152-180 | records a call for a phase; exact room condition |
| `Deferred.Wts.CanFlush` | src/wts.c:83-121 | true exactly if all phases recorded the same calls |
| `Deferred.Wts.Flush` | src/wts.c:123-150 | makes every call once, in order, exactly in that case, and otherwise none |
| `Deferred.GatesPassOnce` | src/cfc.c:8-42 | from a reset the gates let exactly one commit through |
| `Deferred.GatesNotice` | src/cfc.c:8-42 | a commit without the first gate, a pair of flags that has come apart and a gate passed before are all noticed |
| `Engine.InputAfterSwitches` | src/ibuf.c:212-242 | over several switches only the last counts; an unchanged message passes unless it was read-only and had another checksum |
| `InputMessages.ChangedMessageRefused` | src/ibuf.c:133-147 | an accepted message is refused once it is changed within four consecutive bytes, on entry and, if read-only, at the commit |
| `InputMessages.PhasesMustLeaveSameMessage` | src/ibuf.c:212-242 | a writable message passes as the phase before left it, and is refused if changed from that within four consecutive bytes |
| `InputMessages.RestOfMemoryIgnored` | src/ibuf.c:212-242 | bytes outside the message play no part in any of these checks |
| `InputMessages.ZeroMessage` | src/ibuf.c:133-147 | 32 zero bytes are accepted exactly with the checksum 8A9136AA |
| `InputMessages.DigitMessage` | src/ibuf.c:133-147 | the characters 1 to 9 exactly with E3069283 |
| `Engine.Sei.WriteThrough` | src/mode_cow.c:858-867 | logs the old bytes in the current phase's log and writes the new ones |
| `Engine.Sei.Prepare` | src/mode_cow.c:491-499 | takes the next input message, and accepts it exactly if it has the checksum it came with |
| `Engine.Sei.Begin` | src/mode_cow.c:508-527 | from an idle engine to the first phase with all gates reset |
| `Engine.Sei.Switch` | src/mode_cow.c:529-567 | moves all phase counters on and exchanges the phase's log with memory; exactly when the next phase has allocated nothing |
| `Engine.Sei.TryCommit` | src/mode_cow.c:974-1077 | exactly which checks it comes to; logs and recordings stay as they were |
| `Engine.Sei.Commit` | src/mode_cow.c:569-669 | exactly when it goes through; which calls and frees are done by then, also when it stops; and that the engine is empty and idle after a commit |
| `Engine.Sei.Rollback` | src/mode_cow.c:924-972 | memory restored from the first log, every allocation freed once, and the engine as after a begin with no messages waiting |
| `HandlerModule.CompleteRunsAreEqual` | src/tmi.c:1416-1418 | a deterministic handler has at most one complete run from a memory |
| `Transactions.Perform` | src/mode_cow.c:819-867 | one arbitrary action: recorded in its phase exactly if there is room, and answered as if the phase ran alone |
| `Transactions.DoAlloc` | src/mode_cow.c:719-737 | an allocation of any phase gets the allocator's answer to the same allocation of the first |
| `Transactions.DoDefer` | src/tmi.c:880-895 | calls are deferred in the first two phases and made at once in later ones |
| `Transactions.NextPhase` | src/mode_cow.c:529-567 | whatever a phase did, the next one starts from the memory the first one started from |
| `Transactions.Conclude` | src/mode_cow.c:569-669 | the commit's verdict in terms of what the phases did, with the calls and frees done whether it commits or stops; a commit keeps the last phase's memory |
| `Transactions.StopsWithEffectsExactly` | src/mode_cow.c:619-668 | exactly when a transaction that does not commit has had effects, in both builds |
| `Runs.RunPhases` | src/tmi.c:1361-1419 | phases that do anything run one after another; exactly which calls a third or later phase makes at once, also if it is stopped |
| `Runs.MadeAll` | src/tmi.c:880-895 | phases that are not stopped make at once exactly the calls of the third and later of them |
| `Runs.Transact` | src/tmi.c:1344-1436 | a transaction of arbitrary, possibly faulty phases commits exactly when they pass verification, with the memory of the last phase and the deferred calls and frees of the first, once each and in order; otherwise exactly what was done before the stop |
| `Runs.CommitIsSound` | src/mode_cow.c:557-559 | a commit means that first and last phase computed the same memory, if every last writer was checked |
| `Runs.CommitIsSoundForSeparateAccesses` | src/abuf.c:284-376 | so it does for accesses that are disjoint or identical, under the newest-entry rule or without repeated addresses |
| `Runs.MiddleValuesUnchecked` | src/abuf.c:965-1131 | with three or more phases the values of a phase in between may be anything without changing the verdict |
| `Runs.RunHandler` | src/tmi.c:1361-1419 | every phase of a fault-free transaction observes and does what the handler does on its own |
| `Runs.Execute` | src/mode_cow.c:508-623 | a fault-free transaction of N phases commits exactly when the handler's own run passes, and then memory, calls, frees and messages are those of one plain run; otherwise exactly what was done before the stop |
| `Runs.PlainStopsWithEffectsExactly` | src/mode_cow.c:619-668 | exactly when a fault-free transaction that does not commit has had effects |
| `Runs.CallMadeThenStopped` | src/tbin.c:142-145 | a handler whose deferred call is made before its free of NULL stops the process |
| `Agreement.AgreementExactly` | src/mode_cow.c:600-618 | for all values of a shape a commit means that all phases computed the same memory exactly when every last writer is checked and there are two phases or nothing is written |
| `Agreement.MiddleDisagrees` | src/abuf.c:965-1131 | for every shape that writes something and three or more phases, values with which a commit hides a differing phase |
| `Agreement.CommitIsPlainRun` | src/mode_cow.c:569-669 | if the first or the last phase is the handler's own run and last writers are checked, a commit has memory, frees and, for a phase that defers them, calls of one plain run |
| `Agreement.PopAgreed` | src/obuf.c:128-163 | checksums are given as long as all phases agree, and each is that of the message in its place of every phase |
| `Agreement.SendAgreed` | src/mode_cow.c:898-907 | so if any one phase is the handler's own run, every checksum taken is that of its message |
| `Runs.SeparateAccessesPass` | src/abuf.c:284-376 | for accesses that are disjoint or identical, with few enough superseded, it passes under either rule |
| `Server.IdleExactlyWhenFinished` | src/mode_cow.c:619-668 | after a commit the engine is idle, with the messages so far waiting and none begun, exactly if the handler finished the messages it began |
| `Server.Serve` | examples/simple/main.c:123-153 | one event: dropped if its checksum is wrong; otherwise the process goes on exactly if the transaction passes, with the effects of one plain run of the handler and its messages' checksums sent; if it stops, exactly what it had done |
| `Server.ServeAll` | examples/simple/main.c:110-156 | for any list of events: memory, calls, frees and checksums sent are those of running the handlers plainly one after another, up to the first that does not pass, and for that one exactly the calls and frees done before the stop |
| `Attempts.Abandon` | src/mode_cow.c:924-972 | giving up in the first phase with disjoint accesses, case by case: what was written stays in blocks, which are freed once each; a pointer-sized location holding an address inside one ends as eight zero bytes; the rest end at their start values; nothing else changes |
| `Attempts.Check` | src/mode_cow.c:974-1077 | verification in terms of what the phases did, leaving everything a rollback needs |
| `Attempts.TryOnce` | src/tmi.c:1428-1497 | one attempt is rolled back exactly when nothing stops it and it is incomplete or fails the checks, and commits exactly when it passes verification; exactly what it has done otherwise, and which calls at once; after a rollback memory and input are those the next attempt starts from |
| `Attempts.RunAttempts` | src/tmi.c:1428-1501 | the attempts before number k, each started from what the rollback before left, are rolled back, number k is not; it commits exactly if it passes verification from its own start, with its calls and frees once each and in order, its messages, and the memory it makes of that start, and otherwise stops with exactly what it had done; calls that third and later phases of any attempt made at once; blocks of the others are freed once |
| `Attempts.TracelessAttempts` | src/tmi.c:1428-1501 | attempts given up in the first phase, with disjoint accesses and no blocks, leave memory and input of the first start to the next one |
| `Attempts.NoneMadeIn` | src/tmi.c:880-895 | with two phases no attempt makes calls at once |
| `Crc32c.StepLinear` | src/crc32c/crc32c_software.c:51-63 | one bit step is linear over exclusive or |
| `Crc32c.CrcConcat` | src/crc.c:79-92 | the checksum of a concatenation continues from the checksum of the first part |
| `CrcStandard.GeneratorTerms` | src/crc32c/crc32c_software.c:53 | the generator has exactly the terms of section 12.1 of RFC 3720 |
| `CrcStandard.MirrorBit` | src/crc32c/crc32c_software.c:53 | the opposite order: bit k of the one is bit 31 - k of the other |
| `CrcStandard.CrcIsRemainder` | src/crc32c/crc32c_software.c:51-63 | with its bits in the opposite order the register is the remainder of dividing by that generator, highest term first, for every state and text |
| `CrcStandard.ThirtyTwoZeros` | src/crc.c:32-39 | 32 zero bytes have the checksum 8A9136AA, as in appendix B.4 of RFC 3720 |
| `CrcStandard.OneToNine` | src/crc.c:32-39 | the characters 1 to 9 have the checksum E3069283 |
| `CrcDetection.StatesStayApart` | src/crc.c:79-92 | two different states stay different whatever is appended |
| `CrcDetection.BurstDetected` | src/crc.c:32-39 | messages that differ only within four consecutive bytes have different checksums |
| `CrcSoftware.TableMeaning` | src/crc32c/crc32c_software.c:51-72 | entry i of table j is i after 8(j+1) bit steps |
| `CrcSoftware.SliceIsSteps` | src/crc32c/crc32c_software.c:546-554 | four table lookups are 32 bit steps of a word |
| `CrcSoftware.LeadingAligns` | src/crc32c/crc32c_software.c:534-540 | the bytes taken singly are just those before the next aligned word |
| `CrcSoftware.Sarwate` | src/crc32c/crc32c_software.c:520-529 | equals the bitwise register, which CrcIsRemainder shows to be CRC-32C, for every state and text |
| `CrcSoftware.SlicingBy4` | src/crc32c/crc32c_software.c:531-562 | the same, for every alignment |
| `CrcSoftware.SlicingBy8` | src/crc32c/crc32c_software.c:564-603 | the same, for every alignment |
| `CrcHardware.OperandIsBytes` | src/crc32c/crc32c_hardware.c:44-47 | the crc32 instruction on a word of n bytes is n byte steps |
| `CrcHardware.Hardware32` | src/crc32c/crc32c_hardware.c:38-75 | equals the same bitwise register, tail switch included |
| `CrcHardware.Hardware64` | src/crc32c/crc32c_hardware.c:78-133 | the same with eight-byte words and the tail switch with its fall-throughs |
| `CrcApi.AppendChunk` | src/crc.c:79-92 | appending chunk by chunk is appending their concatenation |
| `ObufModule.Obuf.Push` | src/obuf.c:88-103 | extends the current phase's unfinished message, unless the ring is full |
| `ObufModule.Obuf.Done` | src/obuf.c:105-126 | finishes it exactly if it has content and a slot |
| `ObufModule.Obuf.Pop` | src/obuf.c:128-163 | gives the checksum of the oldest message exactly if all phases have one of the same size and checksum |
| `ObufModule.PopAll` | src/obuf.c:128-163 | when all phases finished the same messages, however cut into chunks, the j-th pop gives the checksum of the j-th, across ring wraparound |
| `TwoPhase.StepKeeps` | src/tmi.c:1115-1199 | every step of every thread keeps: memory is the serial memory plus each holder's pending writes, logs undo them, mutex owners match lock logs |
| `TwoPhase.SerializableInCommitOrder` | src/tmi.c:1518-1534 | in every interleaving the committed handlers are equivalent to running them one after another in commit order, for handlers that hold the mutex of a location, or own it, whenever they touch it in a run that can happen |
| `TwoPhase.CommitKeeps` | src/tmi.c:1421-1436 | what a committing handler observed is a run of it on its own from the serial memory |
| `TwoPhase.QuietMemoryIsSerial` | src/tmi.c:1518-1534 | with no transaction under way memory is exactly the serial memory |
| `TwoPhase.MutexesHeldThroughCommit` | src/tmi.c:1254-1262 | a mutex taken in the first phase is the thread's until after the commit |
| `TwoPhase.LaterPhasesRetrace` | src/tmi.c:1141-1145 | a later phase observes what the first observed, finds a matching record for every mutex operation and never waits |
| `TwoPhase.PlainHandlerIsGuarded` | src/tmi.c:1115-1199 | the handler that locks, writes and unlocks without looking at the results is one of those |
| `TwoPhase.LogsAtCommit` | src/abuf.c:565-597 | before the commit the first phase's rewound log holds what the last phase wrote, the last log the serial memory's values, and memory the transaction's own writes there |
| `TwoPhaseCommit.VerificationPasses` | src/abuf.c:284-376 | so the comparison of logs and memory accepts, under either rule, whatever other threads are doing |
| `TwoPhaseProgress.GoesOnExactlyUnlessWaiting` | src/tmi.c:1115-1199 | in every reachable state a thread inside a transaction can go on exactly unless it is in its first phase and about to take a mutex that is held or does not exist |
| `TwoPhaseProgress.LocksAgainForGood` | src/tmi.c:1136-1140 | a thread about to lock a mutex it has taken never takes another step, whatever the others do |
| `TwoPhaseAlone.MutexTakenExactlyWhenFree` | src/tmi.c:1136-1140 | in the first phase a lock or trylock takes the mutex exactly when it is free, and only a trylock goes on when it is held, with the owner unchanged |
| `TwoPhaseAlone.CommitsAlone` | src/tmi.c:1421-1534 | from any quiet state of any run, a guarded handler whose own run completes without locking a mutex twice goes through all phases on its own: it commits what it would observe alone, memory holds exactly its writes, all mutexes are free |
| `TwoPhaseAlone.PlainHandlerCommits` | src/tmi.c:1421-1534 | so the plain lock, write, unlock handler always can |
| `TwoPhase.LateUnlockKeeps` | src/tmi.c:1518-1534 | a late unlock always finds the mutex in the hands of its own thread |
| `Tbar.StepKeeps` | src/tbar.c:126-220 | every step of every thread keeps what snapshots and marks mean, for counters that cannot be misread |
| `Tbar.GrantedMeansLeft` | src/tbar.c:187-220 | in every interleaving a check that returns 1 means that every traversal in progress when the caller's latest leave began, at a counter that cannot be misread, has ended |
| `TbarChecks.LookExactly` | src/tbar.c:196-213 | one look settles its item, and keeps the verdict, exactly if the item is settled, was even when copied, has moved on without bit 31 clear and low half at or below the copy, or has not moved and is misread; nothing else changes |
| `TbarChecks.GrantedExactly` | src/tbar.c:187-220 | in every interleaving a check returns 1 exactly when each of its looks did so |
| `TbarChecks.GrantedExactlyWhenMarked` | src/tbar.c:187-220 | that is, exactly when every item it looked at is settled |
| `TbarChecks.GrantedOnceAllLeft` | src/tbar.c:187-220 | if every counter that was odd in the snapshot has moved on when a check begins, and counters stay below 2^31, it returns 1 |
| `TbarChecks.CheckCanGrant` | src/tbar.c:187-220 | and such a check is never stuck |
| `Tbar.UnchangedLooksChanged` | src/tbar.c:207-211 | the narrowed comparison takes an unchanged counter for a changed one exactly if bit 31 is set and the upper half is not all ones |
| `Tbar.ChangedIsOverlooked` | src/tbar.c:207-211 | and overlooks a change exactly if bit 31 is clear and the low half is not above the snapshot |
| `Tbar.MisreadingMarksExactly` | src/tbar.c:207-211 | the check marks a thread that is still inside exactly when it misreads its counter |
| `Tbar.MisreadGrantsTooEarly` | src/tbar.c:187-220 | for every other odd counter value a run from an initial state grants although a traversal in progress at that value has not ended |
| `Tbar.EarlyExactlyWhenMisread` | src/tbar.c:187-220 | so the barrier can grant too early with a counter at c exactly if c is odd, bit 31 is set and the upper half is not all ones |
| `Tbar.ReachesLooped` | src/tbar.c:126-185 | runs in which a thread enters and leaves any number of times |
| `CowModule.Cow.FindSlot` | src/cow.c:324-345 | the first slot for a key in its bucket, or none |
| `CowModule.Cow.Read` | src/cow.c:356-377 | an aligned read gives what plain memory would hold; an unaligned one is plain or stops, exactly by whether its word is buffered |
| `CowModule.Cow.Write` | src/cow.c:403-433 | an aligned write stores into the view of memory and keeps keys unique and in their buckets; any other is refused |
| `CowModule.Cow.WriteAll` | src/cow.c:403-433 | after any aligned writes the view is what plain memory would be |
| `CowModule.Cow.Apply` | src/cow.c:277-296 | memory becomes the view and the buffer is empty |
| `CowModule.Cow.ApplyCmp` | src/cow.c:129-183 | write-back build: succeeds exactly if both buffers are equal entry for entry, and then memory becomes the view and both are empty |
| `CowModule.Cow.WriteThrough` | src/cow.c:403-433 | writes memory and keeps the view, which is the memory before |
| `CowModule.Cow.WriteThroughAll` | src/cow.c:403-433 | after any aligned writes from an empty buffer, memory is as written, the view is the start memory, and words are saved in the order of their first write |
| `CowModule.Cow.Swap` | src/cow.c:298-316 | memory and view change places: the start memory is back |
| `CowModule.Cow.CmpMemory` | src/cow.c:129-183 | write-through build: succeeds exactly if both buffers have the same words in the same order and memory holds the first one's, and then both are empty |
| `CowModule.BucketsExactly` | src/cow_helpers.h:18 | bucket r holds the words whose number leaves remainder r by 128, in the order of their first write |
| `CowModule.ViewsAgree` | src/cow.c:160-164 | for the same words saved, the comparison with memory accepts exactly if both phases computed the same memory |
| `CowModule.TwoPhases` | src/mode_cow.c:561-600 | two phases with any writes pass exactly if all are aligned, both touch the same words in the same order and both computed the same memory |
| `CowModule.ManyPhases` | src/mode_cow.c:594-601 | three or more phases pass exactly if all accesses are aligned, the first two touch the same words in the same order, the others write nothing and the first one changes nothing |
| `HashTableModule.HashFn` | examples/ukv/ukv.c:28-39 | the loop computes 33h + c over signed characters in 64 bits, cut to 32 |
| `HashTableModule.KnownSums` | examples/ukv/ukv.c:28-39 | check values for one character below 128 and one above, which counts as negative |
| `HashTableModule.KnownMixes` | examples/ukv/hashtable/hashtable.c:61-73 | and what the scrambling makes of them |
| `HashTableModule.HashTable.Create` | examples/ukv/hashtable/hashtable.c:27-52 | an empty table whose length is a prime above the size asked for, or NULL exactly if that is above 2^30 |
| `HashTableModule.UnderFlat` | examples/ukv/hashtable/hashtable_private.h:36-39 | all entries for a key are in the chain of its hash |
| `HashTableModule.IndexWraps` | examples/ukv/hashtable/hashtable_private.h:35-39 | a hash below the length is its own index, and adding the length makes no difference |
| `HashTableModule.Rehash` | examples/ukv/hashtable/hashtable.c:89-103 | moving all entries loses none, places each in its new chain and reverses the order under each key |
| `HashTableModule.HashTable.Expand` | examples/ukv/hashtable/hashtable.c:76-111 | grows to the next prime unless at the last or out of memory; same entries, values under each key reversed |
| `HashTableModule.HashTable.Insert` | examples/ukv/hashtable/hashtable.c:142-166 | puts the value first under its key, after growth if the load limit is passed; the count is the number of entries |
| `HashTableModule.HashTable.Search` | examples/ukv/hashtable/hashtable.c:169-186 | gives the first value under the key, or none |
| `HashTableModule.HashTable.Remove` | examples/ukv/hashtable/hashtable.c:192-222 | takes out the first value under the key and nothing else |
| `UkvModule.Iterator.Advance` | examples/ukv/hashtable/hashtable_itr.c:54-89 | what is left to visit loses exactly its first entry |
| `UkvModule.Iterator.RemoveCurrent` | examples/ukv/hashtable/hashtable_itr.c:99-125 | takes exactly the current entry out of the table and goes on to the next |
| `IteratorLinks.Iterator.Advance` | examples/ukv/hashtable/hashtable_itr.c:54-89 | with the pointers: entry and parent pointer are again an entry and the one before it in its chain |
| `IteratorLinks.Iterator.Remove` | examples/ukv/hashtable/hashtable_itr.c:99-125 | unlinks exactly the current entry from its parent or its chain's head, takes it out of its chain of the table and corrects the parent, so that the iterator can go on |
| `IteratorLinks.Iterator.constructor` | examples/ukv/hashtable/hashtable_itr.c:12-36 | starts at the first entry of the table |
| `IteratorLinks.Sweep` | examples/ukv/hashtable/hashtable_itr.c:54-125 | going through the table with removals visits every entry once and leaves the others in their order |
| `UkvModule.VisitAll` | examples/ukv/hashtable/hashtable_itr.c:12-89 | iterating visits every entry exactly once |
| `UkvModule.Ukv.Set` | examples/ukv/ukv.c:87-110 | adds a key that is not there; one that is there keeps its value, which is returned |
| `UkvModule.Serve` | examples/ukv/ukv.c:77-121 | any sequence of get, set and delete is answered as by a finite map in which set never overwrites, however often the table grows |
| `UkvModule.ThereExactlyWhenSet` | examples/ukv/ukv.c:77-121 | after any requests a key is there exactly if it was set and not deleted since |
| `UkvModule.ValueIsFirstSet` | examples/ukv/ukv.c:87-110 | with the value of the first set since it was last deleted |
| `PowersOfTwo.Smear` | src/heap.c:181-190 | or-ing a number with itself shifted by j doubles its run of leading ones |
| `PowersOfTwo.UpperIsLeastPower` | src/heap.c:178-192 | up to 2^63 the result is the least power of two not below |
| `PowersOfTwo.IntLog2` | src/heap.c:196-202 | the position of the highest bit |
| `HeapModule.ClassInRange` | src/heap.c:90-97 | the class of a request is inside the table of free lists exactly if request and header fit 1 MB |
| `HeapModule.Heap.Malloc` | src/heap.c:90-130 | the first freed block of the size, or else a new one at the cursor; out of memory exactly when there is neither, outside the table exactly when request and header exceed 1 MB; blocks stay disjoint powers of two inside the heap, each live or in the one free list of its size |
| `HeapModule.Heap.Free` | src/heap.c:132-148 | appends the block to the free list of its size, leaves the other lists, and keeps all of that |
| `HeapModule.FreeAll` | src/heap.c:132-148 | blocks of one size freed one after another queue up behind those already free |
| `HeapModule.TakeBack` | src/heap.c:90-105 | requests of that size take them from the front of the queue, without moving the cursor |
| `HeapModule.Recycle` | src/heap.c:90-148 | so blocks come back in the order they were freed |
| `HeapModule.Heap.LiveBlocksDisjoint` | src/heap.c:90-130 | no two live blocks overlap and all lie inside the heap |
| `CpuIsolation.Cpus.BlacklistCore` | src/cpu_isolation.c:94-117 | adds a core in range once; the count stays the number of blacklisted cores |
| `CpuIsolation.Cpus.NextAvailable` | src/cpu_isolation.c:141-164 | the first available core from the cursor on, going round; none exactly if none is available |
| `CpuIsolation.Cpus.MigrateCurrent` | src/cpu_isolation.c:166-218 | moves to the next available core in the round, and fails exactly if none is left |
| `CpuIsolation.Cpus.MigrateExcluding` | src/cpu_isolation.c:220-275 | the lowest available core other than this one, or none exactly if there is none |
| `CpuIsolation.Cpus.ApplyBlacklist` | src/cpu_isolation.c:322-343 | takes exactly the blacklisted cores out of a mask |
| `CpuIsolation.SelectAll` | src/cpu_isolation.c:141-164 | with k cores available any k selections in a row give each exactly once, wherever the cursor was |
| `CpuIsolation.Retry` | src/ibuf.c:86-126 | attempts run on distinct cores and blacklist exactly those that failed; retries end with a verdict that is no fault, or when every core has been used up and not earlier |
| `CpuIsolation.RetryMigrating` | src/tmi.c:1428-1501 | with both cores blacklisted per failure, retries end with a verdict that is no fault, or after exactly half as many failures, rounded down, as there were cores to use: those available and the first |
| `Strtol.Cutoff` | src/libc/stdlib/strtol.c:105-114 | quotient and rest of the largest magnitude, whichever way division of negative numbers rounds |
| `Strtol.CutoffIsExact` | src/libc/stdlib/strtol.c:126-137 | the cutoff comparison holds exactly if one more digit goes beyond the limit |
| `Strtol.OneDigit` | src/libc/stdlib/strtol.c:123-144 | one more digit: the accumulator is the clamped value and no step leaves the range of a long |
| `Strtol.Convert` | src/libc/stdlib/strtol.c:43-151 | the exact value of the longest run of digits clamped to the range of a long; a range error exactly on clamping |
| `Numerals.ReadBack` | src/libc/stdlib/strtol.c:43-151 | white space, a sign, a prefix and digits of any base in either case, then anything else: exactly the number if it fits a long, the nearest limit and a range error if not, and the end right behind the digits |
| `Numerals.ReadBackNumber` | src/libc/stdlib/strtol.c:43-151 | every number in range, written in any base from 2 to 36 in either case, with or without minus, is read back |
| `Numerals.DigitsOfNumber` | src/libc/stdlib/strtol.c:115-146 | digits found by dividing stand for the number they came from, each below the base |
| `Numerals.WrittenRun` | src/libc/stdlib/strtol.c:63-146 | the parts of such a text are recognised as what they are |
| `Strtol.EndsAgreeExactly` | src/libc/stdlib/strtol.c:79-84 | the end is the standard's exactly if no 0x stands without a digit behind it |
| `Strtol.BareHexPrefix` | src/libc/stdlib/strtol.c:148-150 | for the text 0x they differ |
| `AbufModule.Abuf.NewestEntry` | src/abuf.c:330-345 | the last entry for an address, or none |
| `AbufModule.Abuf.HasOtherEntry` | src/abuf.c:539-547 | says exactly whether another entry has the same address |
| `AbufModule.ScanNway` | src/abuf.c:965-1090 | collects the conflicts of the first log in order, exactly if all logs agree and few enough conflict |
| `Compare.AcceptsByList` | src/abuf.c:300-376 | the verdict read off the list of conflicts a scan collects |
| `Deferred.Talloc.Switch` | src/talloc.c:111-119 | moves on exactly if there is a next phase that has allocated nothing |
| `Deferred.Tbin.Add` | src/tbin.c:79-92 | records a pointer for a phase, exactly if there is room |
| `Engine.Sei.PassGates` | src/mode_cow.c:1042-1053 | all phases pass their gates exactly if every at-most-once gate is open |
| `Engine.Sei.TryCompare` | src/mode_cow.c:1015-1035 | two-way or n-way comparison: one verdict on logs and memory, changing nothing |
| `Engine.Sei.Compare` | src/mode_cow.c:600-618 | the same for the aborting build, with its rule for two phases |
| `Engine.Sei.Flush` | src/mode_cow.c:619-668 | the part of the commit after verification: the calls exactly if phases agree on them, then the frees up to the first bad one, whether or not counts, gates and input then let it through |
| `Transactions.DoWrite` | src/mode_cow.c:858-867 | the write is in memory and its old value in the log of the current phase |
| `Transactions.DoRead` | src/mode_cow.c:830-836 | a read sees the start memory with the phase's own writes |
| `Transactions.DoRelease` | src/mode_cow.c:739-745 | a free is recorded in its phase, exactly if there is room |
| `Transactions.DoOutput` | src/mode_cow.c:884-889 | output extends the message of its phase, exactly if there is room |
| `Transactions.DoOutputDone` | src/mode_cow.c:891-896 | a message with content is finished, exactly if there is room |
| `Attempts.Finish` | src/mode_cow.c:569-669 | after the checks have passed calls and frees are done, and the commit goes through exactly if all phases allocated equally often |
| `Attempts.Decide` | src/tmi.c:1428-1475 | rolls back exactly unless the attempt is complete and passes the checks; otherwise commits or stops with calls and frees done, exactly by the allocation counts |
| `Crc32c.FeedByteIsSteps` | src/crc32c/crc32c_software.c:51-63 | feeding a byte is exclusive or and eight bit steps |
| `CrcSoftware.TableStepIsFeedByte` | src/crc32c/crc32c_software.c:524-526 | one table lookup feeds one byte |
| `ObufModule.Obuf.Size` | src/obuf.c:166-178 | the number of finished messages, exactly if all phases agree on it |
| `TwoPhase.FirstPhaseMutexKeeps` | src/tmi.c:1136-1140 | taking a free mutex, or failing to take one, keeps owners and lock logs in step |
| `TwoPhase.UndoKeeps` | src/abuf.c:572-597 | undoing one write at a time is safe between steps of other threads |
| `Tbar.ChangedIsNoticed` | src/tbar.c:207-211 | below 2^31 the comparison is exact |
| `Tbar.RunKeeps` | src/tbar.c:126-220 | every state of every run satisfies the invariant |
| `CowModule.Cow.ApplyBucket` | src/cow.c:282-294 | writes the words of one bucket and empties it |
| `HashTableModule.HashTable.Locate` | examples/ukv/hashtable/hashtable.c:174-183 | the first entry for a key in its chain: comparing hashes first changes nothing |
| `UkvModule.Iterator.constructor` | examples/ukv/hashtable/hashtable_itr.c:12-38 | everything is still to be visited |
| `UkvModule.Ukv.Get` | examples/ukv/ukv.c:77-85 | the value of the key, or none |
| `UkvModule.Ukv.Del` | examples/ukv/ukv.c:112-121 | removes the key and nothing else |
| `HeapModule.Heap.constructor` | src/heap.c:38-77 | an empty heap with empty free lists |
| `HeapModule.Heap.Tail` | src/heap.c:142-147 | the walk along the links ends at the last block of the list |
| `CpuIsolation.Cpus.IsBlacklisted` | src/cpu_isolation.c:119-130 | core numbers out of range count as blacklisted |
| `CpuIsolation.Cpus.AvailableCount` | src/cpu_isolation.c:132-137 | the number of cores that are not blacklisted |
| `Strtol.ParseHead` | src/libc/stdlib/strtol.c:63-86 | white space, sign and base prefix are taken off as specified |
| `Strtol.Accumulate` | src/libc/stdlib/strtol.c:115-146 | the clamped value of the longest run of digits, where it ends, and whether it was clamped |

## Left out

- Engine.Sei.Rollback: clears the recorded calls of every phase; the source clears those of the first two, the only ones that ever record calls.
- Transactions.Perform: faults are arbitrary actions of a phase; writes that bypass the log, and faults in the engine's own data, are not modelled.
- Strtol.Convert: characters above 127 are taken as neither space, digit nor letter, whatever the locale.
- Tbar.GrantedMeansLeft: steps are sequentially consistent; the memory orders of the atomic operations are not modelled, nor 2^64 enters of one thread.
- TwoPhase.SerializableInCommitOrder: whether a trylock succeeds is taken as an input of the handler, rollback with mutexes held is not modelled.
- HashTableModule.HashTable.Expand: the fallback that grows the table in place with realloc is not modelled, running out of memory is running out for both, and the load limit is an arbitrary function of the table length instead of a floating-point product.
- Engine.Sei.Prepare: the checksum of an incoming message is computed once; computing it redundantly and retrying on another core is `CpuIsolation.Retry`.
- UkvModule.Iterator.RemoveCurrent: a position is an index into a chain; entry and parent pointers are in `IteratorLinks`.
- Server.ServeAll: the events are ones whose handlers finish, finish the messages they begin and stay within what the engine can record.  In the build with retries it ends at a transaction that fails its checks; rolling it back and trying again is `Attempts.RunAttempts`.
- Attempts.TracelessAttempts: attempts that allocated something are left to `Rollback.RollbackOutcome`.
- CpuIsolation.Retry: a thread runs on the core it was pinned to; affinity calls that fail end the process and are not modelled.
- ObufModule.Obuf.Pop: heads and tails of the queues are unbounded numbers; 32-bit overflow of the counters is not modelled.
- The contents of blocks the allocator hands out, their zeroing, and memory being returned to the system.
- The literal CRC tables; the model uses the generator given beside them.  Redundant computation of the checksum of an incoming message is one verdict of the retry loop.
- Assembly context switches, stack copies, signals, page protection, fault injection, statistics and logging.
- The heap build of src/mode_heap.c, the heap without preallocation, the mini-traversal builds, and shifting between output buffers.
- Changing the number of phases at run time, and running with fewer phases than the library was compiled for: some comparisons assert against it.
- src/libc/string, the example clients and the network side of the servers: they would only add easy members.
