# DynamoRIO code cache: a Dafny model

This project models how DynamoRIO manages the memory that holds translated code (the code cache),
and proves that its physical layout, linked structures, flags and counters agree after every
operation, that flushed memory is never freed while a thread may still run in it, and that the
code around the cache (the dispatcher, the fragment emitter, the configuration reader and the
formatted output routines) keeps its promises.

## What is modelled

* **One layout, two disciplines.** A unit is a mapped range whose part `[startPc, curPc)` is tiled
  by slots; each slot starts with a header word. `Layout` has the tiling and its elementary steps;
  `Units` the units, their commitment and the sizes involved. All constants are those of x64.
* **Shared caches** (`FreeChain`, `FreeSlots`, `SharedLayout`, `SharedCache`) keep free slots on nine
  bucketed doubly linked lists stored in the free slots themselves, with footers, coalescing on
  both sides, splitting, and a flag on the fragment after a free slot. `SharedCache.Cache.Valid`
  says that slots tile every unit; that no two free slots are neighbours; that a fragment carries
  the flag exactly when the slot before it is free; that headers and footers agree; that every free
  slot is on the one list whose size range holds it; that no free slot ends at the append point of
  the current unit; that every fragment's record describes its slot, with a one-byte `extra` that
  has not overflowed; that units are apart in memory; that each unit waiting to be flushed waits
  once, still holds its fragments and is on no list; and that what is on the lazy deletion list is
  marked deleted. Every operation keeps it.
* **Private caches** (`FifoRing`, `FifoLayout`, `FifoTrim`, `PrivateCache`) keep all slots in one FIFO, empty
  slots first, and make room by evicting contiguous victims. `PrivateCache.Cache.Valid` says that
  the FIFO is well linked, that its entries correspond one to one to the slots tiling the units
  with every header word pointing back at its entry, that fragments have slots of legal size, and
  that empty slots come first.
* **Growth** (`WorkingSet`) is decided by comparing regenerated with replaced fragments.
* **Units after their life in a cache** (`UnitLists`, `UnitPool`, `FlushPipeline`): units to be
  flushed, freed and reused, and the time stamps and counts that tell when every thread has left.
  `FlushPipeline` is a state machine over any interleaving of any number of threads. A thread may
  mark, take and flush units wherever it is, also between choosing a fragment and entering it, and
  new fragments may still be placed in a unit that was handed over until its flush.
* **Around the cache**: the dispatch loop with system calls and signals (`Dispatch`, a state machine),
  fragment emission (`Emit`), configuration files (`ConfigReader`), digits and bounded output (`Iox`).

Code that updates things in place is modelled by classes and methods; the immutable `View` of a
cache and functions on views specify them. A slot "in transit" belongs to no fragment and no free
list; `holes`, `ex` and `limbo` name what is temporarily exempt from the invariant inside an operation.

The environment comes in through parameters: the mapping handed out for a new unit (`Supply`),
whether a fragment is a regenerated one, the fragments of the trace in progress, the steps other
threads and signals take, the contents of a file. A locked region is one step.

## What does not hold, and when it does

* Units to be freed are not always sorted by flush time, although the code asserts it: the stamp is
  taken under the flush synchronisation but the append comes after it. `FlushPipeline.UnsortedReachable`
  gives a run; `FlushPipeline.AppendOrder` and `UnitPool.Pool.AppendUnits` say exactly when the order
  is kept; `UnitLists.DueIsAll` says exactly when a free call then finds everything that is due.
  Safety (`FlushPipeline.NoUseAfterFree`) does not depend on the order.
* A chain of several flushed units loses its cache pointers except the last, which freeing a unit to
  the dead list relies on: `UnitPool.ChainFreeable` and `UnitPool.Pool.FreePending` give the condition,
  `UnitPool.ChainRejected` a chain of two units that fails.
* A unit to flush always has a thread that will flush it unless that thread exits first:
  `FlushPipeline.StepAdders`; `FlushPipeline.AdderLost` gives a run in which it does.
* A reused dead unit may have more reserved than committed, and only the committed part is compared
  with the configured maximum: `PrivateCache.Cache.AddFragment` keeps the cache within its maximum
  if and only if no unit is added or the whole reservation of the added one fits, which a freshly
  mapped unit's does; `PrivateCache.ReservationOverMax` adds one that does not.
* An unterminated last line of a configuration file is processed only if no newline precedes it in
  the last buffer read: `ConfigReader.ReadConfigFile`. In a file that fits the buffer that means that
  it is the only line (`ConfigReader.SmallFile`); `ConfigReader.LastLineLost` gives a file that loses it.
* Output that exactly fills the buffer returns its length unless it ends in a string cut by its
  precision: `Iox.Writer.Print`; `Iox.CutFills` prints such a string in full and reports failure.

## Model

| member | source | states |
|---|---|---|
| Layout.WalkVisitsUnit | core/fcache.c:1142-1201 | walking a unit header by header visits exactly its slots, in address order |
| FreeChain.ChainPush | core/fcache.c:3122-3140 | pushing a free slot on a bucket list keeps both link directions right |
| FreeChain.ChainUnlink | core/fcache.c:2959-2989 | unlinking any entry of a bucket list keeps both link directions right and removes just that entry |
| FreeSlots.FirstWordTellsKind | core/fcache.c:349-394 | whether a slot is free or live can be told from its first word alone, and what that word points at exists |
| FreeSlots.FlagMeansPrevFree | core/fcache.c:1686-1716 | a slot is flagged as following a free one exactly when the slot right before it is free |
| FreeSlots.FreeNext | core/fcache.c:1686-1716 | two free slots are never neighbours |
| FreeSlots.JoinedCore | core/fcache.c:3020-3096 | joining two neighbouring slots in transit keeps the invariant |
| FreeSlots.FiledCore | core/fcache.c:3118-3151 | filing a slot with header, footer and flag keeps the invariant and puts it on the one right list |
| SharedCache.Cache.FindFreeListBucket | core/fcache.c:2936-2945 | the bucket found is the one whose size range holds the size |
| SharedCache.Cache.RemoveFromFreeList | core/fcache.c:2959-2989 | exactly the given entry leaves its bucket list; nothing else in memory but links changes |
| SharedCache.Cache.CoalesceNext | core/fcache.c:3020-3048 | the free slot after a freed one leaves its list and the two become one slot |
| SharedCache.Cache.CoalescePrev | core/fcache.c:3068-3096 | the free slot before, found through its footer, leaves its list and the two become one slot |
| SharedCache.Cache.MarkNext | core/fcache.c:3049-3066 | the fragment after the freed range, if there is one, and nothing else, gets the flag |
| SharedCache.Cache.AddToFreeList | core/fcache.c:2992-3151 | a freed range ends up as one free slot coalesced on both sides, or back in the unclaimed space at the append point; no record changes but the next fragment's flag |
| SharedLayout.ReturnedSound | core/fcache.c:2992-3151 | whichever way a returned slot goes, the whole invariant of the cache is restored |
| SharedCache.Cache.RemoveFragment | core/fcache.c:3697-3737 | deleting a fragment frees its slot and moves no other fragment; a fragment of a unit that is being freed as a whole changes nothing |
| SharedCache.Cache.ShiftStartPc | core/fcache.c:3390-3435 | shifting a fragment's start leaves its header address and slot size as they were |
| SharedCache.Cache.ReturnExtraSpace | core/fcache.c:3437-3579 | new slot size plus bytes given back is the old slot size; all that may be returned leaves the slot, or nothing, exactly as the unit's end, a free neighbour or the number of bytes decides; the slot stays aligned and large enough |
| SharedLayout.ShorterFits | core/fcache.c:3437-3579 | after returning space, or keeping what is not worth returning, the one-byte field does not overflow |
| SharedLayout.PlacedFits | core/fcache.c:3674-3682 | rounding plus up to 127 eaten bytes fit the one-byte field |
| SharedLayout.LowerBucketsTooSmall | core/fcache.c:3174-3205 | no free slot in a lower bucket could have served the request |
| SharedCache.Cache.FindEntry | core/fcache.c:3174-3205 | the entry found is the first that fits, own bucket first; if none is found no free slot anywhere fits |
| SharedCache.Cache.FillEntry | core/fcache.c:3226-3273 | the slot is split when the rest is worth it, else taken whole and the next fragment unflagged |
| SharedCache.Cache.FindFreeListSlot | core/fcache.c:3153-3285 | places a fragment in the first fitting free slot, or changes nothing because none fits |
| SharedCache.Cache.ExtendUnitEnd | core/fcache.c:2482-2520 | claims bytes and eats a remainder too small to keep; sealing turns all that is left into a free slot |
| SharedLayout.FullIsSealed | core/fcache.c:2493-2502 | in a cache without a maximum the current unit never has a remainder that is not zero but too small, so sealing strands no byte |
| SharedCache.Cache.AppendFragment | core/fcache.c:3322-3340 | the fragment gets the next bytes of the current unit, with a too-small rest |
| Units.CommitSize | core/fcache.c:2533-2541 | doubling the commit increment ends: at the increment if that is enough, else below twice what is needed |
| Units.NewSize | core/fcache.c:2635-2640 | a new unit reserves the least whole pages that are a full unit and twice the slot that did not fit |
| Units.SlotFor | core/fcache.c:3674-3682 | the slot for a fragment is the least aligned size that is legal and holds fragment and header, at most 91 bytes larger than the fragment |
| Units.ExcessAt | core/fcache.c:3459-3473 | what may be returned of a slot is the largest aligned number of bytes that leaves a legal slot for the shortened fragment and its header |
| SharedCache.Cache.ExtendCommitment | core/fcache.c:2533-2545 | more of the reservation is committed: the increment, doubled while too small, or all that is left; the cache's size follows |
| SharedCache.Cache.TryForMoreSpace | core/fcache.c:2526-2660 | either the slot now fits in the current unit, or a new unit leads the list and the oldest is handed over for flushing exactly if the cache is finite and its ratio does not warrant growth; no fragment moves |
| SharedCache.Cache.RetireOldest | core/fcache.c:2584-2628 | exactly a finite cache whose ratio does not warrant growth gives a unit up, the last of its list, and both counters restart |
| SharedCache.Cache.AddFragmentCommon | core/fcache.c:3288-3352 | the slot is the first free one that fits, else the append point if the reservation holds it, else the start of a new unit; a unit is added exactly in the last case; at most two retries, and no other fragment moves |
| SharedCache.Cache.AddFragment | core/fcache.c:3645-3695 | an unbounded shared cache always places the fragment, in the first free slot that fits, else at the append point, else in a new unit; the oldest unit is handed over exactly if one is added and the working set does not warrant growth; a cache that counts counts the placement and, if it is one, the regeneration, on counters that a new unit cleared; what may be committed grows by just the new reservation |
| SharedCache.Cache.PcLookup | core/fcache.c:1142-1201 | returns a fragment exactly when the pc lies in some fragment's body, and then that one |
| SharedLayout.BodiesDisjoint | core/fcache.c:1142-1201 | at most one fragment's body holds a pc |
| SharedCache.Cache.WalkForFlush | core/fcache.c:3810-3913 | the walk ends at the append point, removes exactly that unit's free entries, and chains its fragments in address order except those already pending deletion; exactly the chained ones leave the lazy list |
| SharedCache.Cache.FlushUnit | core/fcache.c:3971-4004 | a flushed unit leaves the cache, which stays valid; its chain is null-terminated, and no fragment is both chained and on the lazy list |
| SharedCache.Cache.JoinUnitChain | core/fcache.c:3990-4001 | chains of two units concatenate, also when either is empty |
| SharedCache.Cache.FlushPendingUnits | core/fcache.c:3920-4024 | all units waiting are taken and flushed once; the chain is theirs in order, and exactly its fragments leave the lazy list; the answer tells whether the caller's unit was among them |
| WorkingSet.Set.Subtract | core/fcache.c:2458-2464 | the subtraction loop ends with as many paired subtractions as both counters allow |
| WorkingSet.Set.CheckRegenReplaceRatio | core/fcache.c:2390-2477 | growth is allowed exactly when warranted, and the counters and flags are left as each branch says |
| WorkingSet.ReducedDecides | core/fcache.c:2449-2474 | after the subtractions a batch is left exactly when more whole batches were regenerated than replaced |
| WorkingSet.RatioIsExceeded | core/fcache.c:2449-2474 | then the exact ratio is exceeded |
| FifoRing.RingRemove | core/fcache.c:2301-2328 | removing any entry keeps head, tail and all links right |
| FifoRing.RingAppend | core/fcache.c:2280-2299 | appending keeps head, tail and all links right |
| FifoRing.RingPrepend | core/fcache.c:2366-2383 | putting an entry in front keeps head, tail and all links right |
| FifoLayout.OneToOne | core/fcache.c:2253-2277 | FIFO entries and slots correspond one to one through the header words |
| PrivateCache.Cache.constructor | core/fcache.c:1559-1624 | a new cache with one unit is valid and its size counts that unit |
| PrivateCache.Cache.FifoRemove | core/fcache.c:2301-2328 | exactly the entry leaves the FIFO, and an empty slot's record is freed |
| PrivateCache.Cache.FifoAppend | core/fcache.c:2280-2299 | the fragment becomes the last entry |
| PrivateCache.Cache.PrependEmpty | core/fcache.c:2330-2387 | the slot enlarges the empty slot in front when adjacent to it, from either side, else becomes a new one in front |
| FifoLayout.EmptyAddedCore | core/fcache.c:2330-2387 | in all three ways the invariant holds again and no fragment changes its place or turn |
| FifoLayout.RunShortest | core/fcache.c:2816-2876 | the victims are the shortest contiguous run that covers the request or reaches the append point |
| PrivateCache.Cache.CanReplace | core/fcache.c:2816-2839 | the first walk says yes exactly when no victim of the run is undeletable |
| PrivateCache.Cache.ForceFromCache | core/fcache.c:2783-2800 | the victim leaves the FIFO and is counted if it is a fragment of a finite cache |
| PrivateCache.Cache.Evict | core/fcache.c:2846-2876 | the second walk removes exactly the run, whose slots become one, and counts exactly its fragments |
| PrivateCache.Cache.ReplaceFragments | core/fcache.c:2802-2912 | all or nothing: an undeletable victim leaves everything unchanged; else the run is replaced, the others keep slot and turn, and victim bytes plus claimed bytes are the new slot plus the leftover empty slot |
| PrivateCache.Cache.ReplaceFifo | core/fcache.c:2914-2934 | the replacement starts at the first FIFO entry where one can succeed |
| PrivateCache.Cache.AppendFragment | core/fcache.c:3322-3340 | the fragment gets the end of the current unit and the last turn |
| FifoLayout.SealLeft | core/fcache.c:2493-2502 | the current unit has either no room or enough for an empty slot, so sealing strands no byte |
| PrivateCache.Cache.SealUnit | core/fcache.c:2503-2512 | sealing turns the room into an empty slot and touches no fragment |
| PrivateCache.Cache.ExtendCommitment | core/fcache.c:2533-2545 | commits the increment, doubled while too small, or all that is left, and what may be committed in total stays the same |
| PrivateCache.Cache.TryForMoreSpace | core/fcache.c:2526-2692 | succeeds exactly if the reservation or the configured maximum has room; fragments stay; the total that may be committed grows by just the new reservation |
| PrivateCache.Cache.FindRoom | core/fcache.c:3305-3340 | empty slots are tried in order, the end of the unit only if none will do |
| PrivateCache.Cache.MakeWay | core/fcache.c:3355-3388 | then the oldest replaceable fragments, then growing regardless, then aborting the trace |
| PrivateCache.Cache.AddFragmentCommon | core/fcache.c:3288-3388 | at most two retries; only deletable fragments leave; over fragments only if growing is unwarranted or impossible, and growing only if it is warranted or no fragment can be replaced; not placed only if stuck at the maximum; tests, victims and the regeneration are counted as they happen |
| PrivateCache.Cache.AddFragment | core/fcache.c:3645-3695 | the fragment is placed, others keep slot and turn; it fails only at the maximum with nothing replaceable, which without undeletable fragments means that no unit is large enough; a unit is added only if growth is warranted or nothing can be replaced; what may be committed grows by its reservation, so the cache stays within its maximum exactly if that fits; the counters count the fragments that left |
| PrivateCache.ReservationOverMax | core/fcache.c:1339-1373 | a reused dead unit whose committed part fits and whose reservation does not takes the cache over its maximum |
| FifoLayout.UnitReplaceable | core/fcache.c:3380-3388 | with nothing undeletable a large enough unit that holds anything can take the fragment |
| PrivateCache.Cache.RemoveFragment | core/fcache.c:3697-3737 | the fragment leaves the FIFO, its slot is part of an empty slot in front, and the others keep slot and turn |
| FifoLayout.AddedThenRemoved | core/fcache.c:3697-3737 | removing a fragment undoes its addition for all the others |
| FifoTrim.ShortenedFits | core/fcache.c:3552-3561 | after returning space, or keeping what is not worth returning, the one-byte field does not overflow |
| PrivateCache.Cache.ReturnExtraSpace | core/fcache.c:3437-3579 | the bytes leave the slot exactly when the unit's end, an empty neighbour or their number allows it; then they are room of the current unit, part of the empty slot behind them, or part of the one in front of the FIFO, as their place decides; nothing else changes its slot, record or turn |
| PrivateCache.Cache.PcLookup | core/fcache.c:1142-1201 | returns a fragment exactly when the pc lies in some fragment's body, and then that one |
| FifoLayout.BodiesApart | core/fcache.c:1142-1201 | at most one fragment's body holds a pc |
| UnitLists.SortedConcat | core/fcache.c:3776-3784 | appending keeps the order exactly when the new first is not older than the old last |
| UnitLists.DueIsAll | core/fcache.c:4026-4054 | the units freed are all that are due exactly when none waits behind one that is not; sorted lists qualify |
| UnitLists.DueMissed | core/fcache.c:4050-4051 | in an unsorted list a unit that is due can be missed |
| UnitPool.Pool.AppendUnits | core/fcache.c:3771-3804 | the chain is appended, the tail pointer is right, all but its last unit are detached, and the order is kept exactly when the chain is not older |
| UnitPool.Pool.InsertDead | core/fcache.c:1514-1530 | the dead list gains exactly the unit and stays sorted by size |
| UnitPool.Pool.TakeDead | core/fcache.c:1339-1373 | the unit reused is the smallest that serves the request within the maximum; none is found only if none serves |
| UnitPool.Pool.FreeUnit | core/fcache.c:1475-1542 | the unit is kept while there is room, else unmapped; keeping it requires it still to have its cache |
| UnitPool.Pool.FreePending | core/fcache.c:4026-4054 | frees exactly the units at the front that are due, with the tail pointer right; if sorted, exactly those with flush time at or below the argument; and says exactly when a detached unit makes it fail |
| UnitPool.ChainFreeable | core/fcache.c:3790-3799 | a chain flushed together can be freed exactly if it is one unit or none of it would be kept |
| UnitPool.ChainRejected | core/fcache.c:3790-3799 | a chain of two units, appended and freed while there is room for a dead unit, fails |
| FlushPipeline.StepInv | core/fcache.c:3920-4024 | every step of any thread keeps the invariant of the pipeline, also one that places a fragment in a unit that already waits for its flush |
| FlushPipeline.SignedBatches | core/vmareas.c:9719-9776 | each batch counts exactly the threads that have not signed it off, through every sign-off |
| FlushPipeline.UnlinkBatches | core/fragment.c:6540-6565 | a flush counts all threads that ran before it and none that start after it |
| FlushPipeline.SignedInsides | core/vmareas.c:9664-9876 | what a sign-off deletes no thread is in |
| FlushPipeline.SignedEmptied | core/vmareas.c:9842-9854 | a unit is freed only when all its fragments are deleted |
| FlushPipeline.FreedWhenSafe | core/fcache.c:4026-4054 | a unit freed was flushed before every batch that still waits for a thread |
| FlushPipeline.FreesAllSafe | core/vmareas.c:9842-9852 | a sign-off that completes a batch frees every unit up to the first that was not flushed before all remaining batches; one that completes none frees none |
| FlushPipeline.DeletesAllSafe | core/vmareas.c:9719-9840 | a batch leaves exactly when its last thread signs it off, and exactly its fragments and those lazily deleted no later are deleted then |
| FlushPipeline.WaitsForSomeone | core/vmareas.c:9664-9876 | a fragment that is unlinked but not deleted waits for a thread that ran before |
| FlushPipeline.LaziesWait | core/vmareas.c:9177-9235 | moving the lazily deleted fragments leaves none, and each then waits for every thread |
| FlushPipeline.NeverEnteredAgain | core/fragment.c:6540-6565 | in no run does a thread enter a fragment after it was flushed, lazily deleted, or flushed with its unit |
| FlushPipeline.NoUseAfterFree | core/fcache.c:3749-3759 | in no run is the fragment that a thread last entered, and has not left, deleted or in a freed unit |
| FlushPipeline.ExactlyOnePlace | core/fcache.c:2584-2628 | at all times every unit is in exactly one place and has been flushed once if past its flush, else never |
| FlushPipeline.NeverLost | core/fcache.c:3920-4024 | no step loses a unit |
| FlushPipeline.StepAdders | core/fcache.c:2612-2628 | a unit to flush has an adder that will see to it, lost exactly when that thread exits first |
| FlushPipeline.RunAdders | core/fcache.c:2612-2628 | so it does in every run where no thread exits with its flag set |
| FlushPipeline.AdderLost | core/fcache.c:2612-2628 | a run in which the thread that marked a unit exits before it flushes it |
| FlushPipeline.AppendOrder | core/fcache.c:4011-4021 | an append keeps the list sorted exactly when its flush is not older than the last one appended |
| FlushPipeline.UnsortedReachable | core/fcache.c:4011-4021 | a run after which the units to free are not sorted |
| Dispatch.StepInv | core/dispatch.c:134-254 | every step keeps the dispatch invariant, whatever signals arrive |
| Dispatch.LinkingDiscipline | core/dispatch.c:369-400 | nolinking at every cache entry, couldbelinking at every lookup, build, monitor and lazy link; aborted entries return to couldbelinking and to the tag they wanted |
| Dispatch.TagIsApplication | core/dispatch.c:547-586 | what is looked up is never an address of generated code, although entering the cache overwrites the tag |
| Dispatch.NeverAbandoned | core/dispatch.c:2103-2137 | a non-ignorable system call whose pre-handler ran is always made |
| Dispatch.TwoTries | core/dispatch.c:2103-2137 | it is made at the second try at the latest |
| Dispatch.AbandonedResumes | core/dispatch.c:2138-2160 | only ignorable ones are given up, with at_syscall false and next_tag the length of the instruction below the tag saved before the pre-handler |
| Dispatch.TargetStands | core/dispatch.c:1953-2137 | while a thread is at a system call, asynch_target is what that call's pre-handler left, whatever signals and retries come between |
| Dispatch.CompletedResumes | core/dispatch.c:2193-2261 | a system call that completes was made since its pre-handler ran, and resumes at the target that handler fixed unless the post-handler names another |
| Dispatch.DeferredUntilDelivered | core/dispatch.c:930-944 | a call reached with a signal pending runs no pre-handler, and the tag stays at its instruction, until a signal is delivered |
| Dispatch.SyscallSeenTo | core/dispatch.c:930-944 | a thread that leaves the cache at a system call runs the pre-handler before it may link, or a signal is pending and its tag is back at the instruction |
| Dispatch.HandlerAtSyscall | core/dispatch.c:930-944 | a pre-handler runs only for the last exit, if that was at a system call, and once |
| Dispatch.SignalFirst | core/dispatch.c:515-534 | a signal that waits is delivered before cached code runs again or a system call is made that may be given up |
| Dispatch.DeliveredOnce | core/dispatch.c:515-534 | between two deliveries of waiting signals a signal has arrived |
| Dispatch.LooksUpTarget | core/dispatch.c:171-188 | what is looked up is the target of the exit, or where the completed system call resumes, unless a signal handler comes first |
| Dispatch.LooksUpHandler | core/dispatch.c:515-534 | a delivered signal's handler is looked up next; without one the tag wanted before the entry was aborted |
| Dispatch.LooksUpRedirected | core/dispatch.c:2166-2190 | a system call that is skipped resumes at asynch_target, and a replaced tag is looked up instead of the original |
| Dispatch.BuildsWhenNeeded | core/dispatch.c:198-242 | a block is built only after a failed lookup or when the monitor turned the fragment down |
| Dispatch.EntersSelected | core/dispatch.c:187-252 | what is entered was found or built for the tag wanted, kept by the monitor, and passed the flush check |
| Dispatch.SelectedIsEntered | core/dispatch.c:187-252 | what was found or built goes to the monitor, what that keeps to the flush check, and what passes is entered |
| Emit.ExitAt | core/emit.c:196-210 | the k-th exit is the instruction with k exits before it |
| Emit.Size | core/emit.c:433-498 | the sizing pass: body, exits, stub bytes, offsets, and whether the last pair shares a stub |
| Emit.SetLinkstubs | core/emit.c:179-371 | the i-th linkstub describes the i-th exit and where it was encoded; only the last is final |
| Emit.PlaceStubs | core/emit.c:606-693 | every local stub is where the bytes of the earlier ones end; the shared one is the previous exit's |
| Emit.StubsApart | core/emit.c:606-693 | local stubs do not overlap, except the shared pair, which is one |
| Emit.ReservedIsTaken | core/emit.c:433-498 | the bytes that sizing reserves for the stubs are the bytes they take, although only sizing tells direct exits from indirect ones |
| Emit.EmitFragment | core/emit.c:376-735 | the passes agree on every exit's offset and stub; which exits have no stub, a local one or one elsewhere; offsets fit their field; emission ends where the fragment's size, without the copy, says |
| ConfigReader.Reader.Refill | core/config.c:345-362 | moving the partial line and reading behind it leaves the buffer holding the file from that line on |
| ConfigReader.Reader.Fetch | core/config.c:332-364 | the next line is in the buffer and its newline found, or the file has none left |
| ConfigReader.Reader.Take | core/config.c:372-376 | the line comes out without newline and trailing carriage return |
| ConfigReader.Reader.ReadAll | core/config.c:319-389 | the lines processed are the file's wanted lines in order, then the unterminated rest exactly if it starts the last buffer |
| ConfigReader.LinesRejoin | core/config.c:319-389 | the plain splitting loses nothing and no line contains a newline |
| ConfigReader.ReadConfigFile | core/config.c:319-389 | every file of lines that fit the buffer, whatever its size: all its terminated lines, then the rest exactly if no newline precedes it in the last buffer |
| ConfigReader.SmallFile | core/config.c:319-389 | in a file no larger than the buffer that is exactly when the rest is the only line |
| ConfigReader.LastLineLost | core/config.c:319-389 | a file of two lines whose last is not processed |
| Iox.FillDigits | core/iox.h:64-88 | the digits filled in from the end denote the number, for any 64-bit number in base 8, 10 or 16 |
| Iox.ToDigits | core/iox.h:64-115 | the digit string denotes the number, has the larger of precision and significant digits, and letters of the case asked for |
| Iox.SignificantIs | core/iox.h:82-86 | a number between two powers of the base has exactly that many significant digits |
| Iox.Writer.PutString | core/iox.h:682-696 | the bound is tested before the precision |
| Iox.Writer.PutPiece | core/iox.h:595-710 | prefix, fill and text come in the order the filler and justification ask for |
| Iox.FieldLayout | core/iox.h:595-710 | a conversion is padded to its width with zeros after the prefix, blanks before it, or fill behind, and a cut string as if it were whole |
| Iox.FailsWhen | core/iox.h:595-733 | writing fails exactly if the text is too long, or fills the buffer and ends in a cut string |
| Iox.Writer.Print | core/iox.h:595-733 | never writes past the bound; a shorter text is printed, terminated and its length returned; of a longer one the first max characters, and -1 |
| Iox.CutFills | core/iox.h:682-696 | a cut string that fills the buffer is printed in full and yet reported as too long |

## Left out

- SharedCache.Cache.AddFragment: the new unit is a parameter, and caches with a maximum size are modelled for private caches only, as the code supports no other.
- PrivateCache.Cache.TryForMoreSpace: always starts a new unit, as the code does when a client hook exists; growing a unit in place (`fcache_increase_size`) is not modelled.
- PrivateCache.Cache.AddFragment: aborting a trace only makes its fragments deletable; start padding and shifting a start are modelled for shared caches.
- UnitPool.Pool.FreePending: the size totals of the caches that units are detached from.
- FlushPipeline.StepInv: reset of all caches, suspending all threads, and freeing at exit; a reused unit counts as a new one; a region flush makes one batch.
- Dispatch.StepInv: native execution, callbacks, special exits and what a signal handler does to the stack.
- Emit.EmitFragment: jump padding, instruction encoding and stub contents, so that a stub with an inlined lookup is known by its length only; coarse-grain fragments.
- ConfigReader.Reader.ReadAll: lines longer than the buffer, files with NUL characters, reads that return less than asked for before the end, query mode.
- Iox.Writer.Print: parsing of the format string, which arrives as pieces; wide strings and floating point.
- Order of two writes inside one locked region where nothing can observe it: record before free list in `fcache_return_extra_space`, place before claim at the end of a unit.
- Pointer overflow checks, statistics, logging, page protection, coarse-grain and persisted units.
- The AVX-512 rewriting is not part of this model.
- Hash tables, annotations and the heap are not part of this model.
