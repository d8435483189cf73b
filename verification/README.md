# A verification model of the JVM's runtime core

This project models the stateful algorithms of a small Java virtual machine written in C and
proves what they promise. `dafny verify dfyconfig.toml` checks all of it.

Every operation is modelled **as the code has it**: same branches, same constants, same
widths, same order of steps. Where the code then misses what it is evidently for, a lemma
says for all inputs, or all runs, exactly when it meets its purpose; a concrete input or run
on which it misses stands beside it; and where there is an evident repair, a second value of
an explicit parameter selects it, on which the full property is proved. The table "Where the
code misses its purpose" below names the three for each miss, and says where there is no
repair. Every module names its parameter's meaning in its first comment.

| file | what it models |
|---|---|
| Safepoint.dfy | the stop-the-world protocol: any number of mutators, one collector, each shared access a step |
| SafepointProgress.dfy | when that protocol can still come to a collection |
| SafepointLog.dfy | with which mode each collection runs |
| AllocationSafepoint.dfy, AllocationRequests.dfy | the same protocol together with the allocation mutex that a thread holds while it asks for a collection |
| SlotConcurrency.dfy, SlotEntries.dfy | `allocateSlot` and `freeSlot`, interleaved at the granularity of mutex operations and shared accesses |
| SlotTable.dfy, SlotTypes.dfy | the slot table as a class over an array: trimming, free-list rebuild, two-finger compaction |
| Compaction.dfy | what the relocation list means to the client that applies it to all references |
| HashMap.dfy | the chained hash map over node memory with `prev` and `next` fields, refined to a finite map |
| ReentrantLock.dfy, JLock.dfy | the re-entrant lock with its unsynchronised owner test, and the atomic lock it refines |
| Initialization.dfy, InitializationOutcome.dfy | class initialisation by any number of threads, each recursively: what it keeps, and what it answers and comes to |
| ClassLoading.dfy, LoadedClasses.dfy | recursive class loading with cycle detection over a finite classpath, and what is in the table afterwards |
| FieldLayout.dfy | field offsets and sizes in 16-bit registers, along inheritance chains |
| Bytes.dfy, Switches.dfy | big-endian numbers; `tableswitch` and `lookupswitch` decoded from code bytes |
| FrameLayout.dfy, OperandStack.dfy | where a frame's locals, tags and cells lie in one area of bytes; the operand stack over it, its shuffles, loads and stores |
| Instructions.dfy | sequences of those instructions, against a machine that keeps whole values |
| Heap.dfy | heap regions, bump allocation, and the allocation mutex |
| ObjectCreation.dfy, ArrayExtents.dfy | `newObject` and `newArray` over the slot supply, eden and the address table, and the room that arrays get |
| ConstantPool.dfy, Attributes.dfy | the class-file parsers, against printers for the formats of the JVMS |
| Descriptors.dfy | scanning method descriptors |
| JavaTypes.dfy, TypeLetters.dfy | the primitive types of the JVMS, and that every module goes by the same letters and codes |
| Collections.dfy, Wrappers.dfy | facts about sets and sequences; an option type |

Concurrent parts are state machines: a step is one shared access or mutex operation, a run is
any sequence of enabled steps, and the results are about every reachable state of every run.
Sequential parts are classes and methods with the loops of the source; each method is proved
equal to a function or relation on values, and the properties are lemmas about that.

JVMS below is the Java Virtual Machine Specification, Java SE 8 Edition.

## Where the code misses its purpose

| what | input or run | exactly when | repair |
|---|---|---|---|
| `savePoint` reads the flag twice, and decrements a counter it may not have incremented (gc.c:40-45) | Safepoint.UnmatchedDecrementHidesParkedThread, SafepointProgress.ParksUncounted | SafepointProgress.CollectionPossibleIff; Safepoint.CollectorRunsAlone: it costs progress, not safety | `Config.guarded` |
| the operands at gc.c:120 may be read in either order | Safepoint.ThreadsFirstIsUnsafe | safe with the waiting count first: Safepoint.CollectorRunsAlone | `Config.waitingFirst` |
| a thread waits for a collection with the allocation mutex in hand (heap.c:52-59) | AllocationSafepoint.ParkedHolderDeadlocks | AllocationSafepoint.CollectionPossibleIff | `Config.repaired` |
| a failing allocation returns with the mutex held (heap.c:62) | Heap.FailureBlocksOthers | Heap.AnsweredBySizeIff | `releases` |
| the slot limit is 15, tested for equality and without a lock (indirection.c:75) | SlotConcurrency.NoBoundForTwo | SlotConcurrency.LimitHoldsIff | `Config.testsLocked` |
| a failed growth returns with the table mutex held (indirection.c:96) | the run in SlotConcurrency.GrowthCanFailIff | SlotConcurrency.FailedGrowthLeaksTheMutex, GrowthCanFailIff | `Config.unlocks` |
| the free-list rebuild never moves past a hole (indirection.c:166-203) | SlotTable.RebuildRepeatsAHole | SlotTable.RebuildAsWritten, AddressTable.RebuildFreeList, AddressTable.RebuildAndAllocateTwice | `Config.advances` |
| unmapped pages stay counted (indirection.c:154-155, 259-260) | SlotTable.PageCountGoesWrong | SlotTable.AddressTable.ReleasePages | `Config.lowersPages` |
| compaction counts each vacated slot twice and can leave the top high (indirection.c:233-254) | Compaction.FragmentCountUnderflows, TopStaysHigh | Compaction.FragmentCountIsExactIff, TopIsTightIff | `Config.countsOnce` |
| doubling leaves a stale `prev` at bucket heads (hashmap.c:75-78) | HashMap.SecondEntryIsStale | HashMap.Expanded | `Config.repaired` |
| deleting the first entry of a bucket leaves it pointing to freed memory (hashmap.c:132-137) | HashMap.OnlyEntryDangles | HashMap.Table.Delete | `Config.repaired` |
| a class file may declare another name than asked for (classloader.c:219-223) | ClassLoading.Diverges | ClassLoading.TerminationExact | `Checked` |
| a failed load removes its class with that delete (classloader.c:392) | HashMap.JustInsertedDangles | HashMap.Table.Delete; which entry is first: InsertedIsFirst, Expanded | `Config.repaired` of HashMap |
| `lookupswitch` searches the upper half for ever (bytecode_interpreter.c:1725-1726) | Switches.WrittenLookupSwitchHangs | Switches.WrittenSearchExact | `advance` |
| `tableswitch` indexes bytes, not entries (bytecode_interpreter.c:1712) | Switches.SpikeIsMissed | Switches.WrittenTableSwitchExact | `wide` |
| a thread's first frame puts its stack over its structure (jthread.c:41) | FrameLayout.FirstPushHitsMethod | FrameLayout.FirstFrameApartIff, PushSparesFrameIff | `repaired` |
| `dup` and `dup2` read below the stack (jthread.c:109) | OperandStack.Dup2PushesTags | OperandStack.WrittenDupExact, WrittenDup2Exact | `repaired` |
| `istore_1` and its kin look at the wrong tag (bytecode_interpreter.c:329) | OperandStack.XStoreNTakesTooMuch | OperandStack.XStoreNExact, Instructions.SequenceExact | `repaired` |
| `l2d` pushes the wrong tag (bytecode_interpreter.c:1358) | OperandStack.L2dThenStore, for every value | OperandStack.L2dThenStore, Instructions.SequenceExact | `repaired` |
| Long and Double take one index (constantpool.c:51-56) | ConstantPool.LoneLongFails | ConstantPool.WrittenPoolExact | `wide` |
| an array of long or double counts as two (dataTypes.c:57-65) | Descriptors.ArrayOfLongCountsTwice | Descriptors.WrittenCountExact | `repaired` |
| the type of a local is looked up by parameter (jthread.c:76, dataTypes.c:24-42) | Descriptors.LocalAfterLong | Descriptors.LocalTypeExact | none |
| instance fields are not padded (classloader.c:335-348) | FieldLayout.LongAfterIntIsNotAligned | FieldLayout.InstancesAlignedIff | none |
| a class with a one-letter name counts as a primitive type (classfile.c:22-24) | ArrayExtents.OneLetterClassIsMistaken | ArrayExtents.ElementSizeExact | none |
| the lock's counter has 32 bits (jlock.c:15-38) | JLock.WrapReleasesEarly | JLock.ReleasedIff | none |

## Model

| member | source | states |
|---|---|---|
| Safepoint.CollectorRunsAlone | gc.c:117-183 | in every run, with the guard or as written, while the collector is in its critical section every registered thread is inside `savePoint` or has not left its first one, also when a new cycle starts before earlier waiters have left; the waiting counter is the number of threads between increment and decrement less the unmatched decrements, of which there are none while the collector is in; as written, unless the unmatched decrements come near the range of the counter |
| Safepoint.TestMeansStopped | gc.c:120-124 | the counter comparison succeeds only when every registered thread is counted and no decrement was unmatched |
| Safepoint.TestIsExact | gc.c:120 | with its two reads and any steps of other threads between them, the comparison succeeds if and only if no decrement was unmatched and every thread registered at the second read was counted at the first |
| Safepoint.CountersAgree | gc.c:39-47 | over every run of every variant, of "the counters are equal", "all registered threads are counted" and "unmatched decrements are a multiple of the counter's range", any two imply the third |
| Safepoint.UnmatchedDecrementHidesParkedThread | gc.c:40-45 | a run as written in which the only registered thread is parked and the counters differ |
| Safepoint.UnbalancedCounterDeadlocks | gc.c:42-43 | after any run with an unbalanced count and all threads parked, however many decrements are unmatched, no continuation without a registration lets a cycle start or a thread leave; the exact condition, with registrations, is SafepointProgress.CollectionPossibleIff |
| SafepointProgress.CollectionPossibleIff | gc.c:39-47 | in every run of the code as written, a collection can still take place in some continuation if and only if no decrement was unmatched and nobody stands uncounted inside `savePoint`, that is, if and only if no call so far has found the flag unset; with the guard it always can |
| SafepointProgress.CycleCompletes | gc.c:126-183 | once the collector is in, it completes the cycle by itself, clears the flag and unlocks the mutex |
| SafepointProgress.WaiterLeaves | gc.c:42-47 | after that a thread that waits gets out of `savePoint` by itself |
| SafepointProgress.FrozenForever | gc.c:39-47 | after such a call, once the flag is set again: in every continuation, registrations included, it stays set, no cycle completes, and who waits for it goes on waiting |
| SafepointProgress.RequestIsNeverServed | gc.c:100-105 | so a thread that then asks for a collection never gets out of its next `savePoint` |
| SafepointProgress.ParksUncounted | gc.c:40-43 | a run as written with no unmatched decrement after which no collection can take place: the flag is set between the two reads, and the only thread is parked uncounted |
| Safepoint.RequestIsServed | gc.c:100-105 | after `requestGC(m)` by a registered thread, with the guard or as written, in every continuation, by the time it can leave `savePoint` a whole cycle with mode at least m has completed since the request; as written this is vacuous from the first call of `savePoint` on that found the flag unset (SafepointProgress.RequestIsNeverServed) |
| SafepointLog.LogIsExact | gc.c:100-105 | in every run of every variant, the k-th cycle runs with the strongest of the modes that were raised since the cycle before it, and normally if there were none |
| Safepoint.ThreadsFirstIsUnsafe | gc.c:120 | with `numThreads` read first there is a run in which the collector works while a registered thread past its first `savePoint` runs |
| Safepoint.CapacityDoubles | gc.c:49-63 | in every run the room for registered threads is four, doubled some number of times, and holds all of them |
| Safepoint.SwapRemoveKeeps | gc.c:65-78 | unregistering removes exactly that thread and keeps every other one exactly once |
| AllocationSafepoint.CollectionPossibleIff | heap.c:50-104 | in every run, with the guard of `savePoint` or as written, a collection can still take place in some continuation if and only if nobody has slipped into `savePoint` uncounted, which with the guard nobody ever does, and no thread waits for the allocation mutex while its holder is committed to waiting for a collection or has returned with it, which with the mutex unlocked around the wait none ever does |
| AllocationSafepoint.StuckForever | heap.c:52-59 | two such threads wait for ever: in every continuation the one stays at the mutex, the mutex is not released and no collection begins |
| AllocationSafepoint.ParkedHolderDeadlocks | heap.c:52-59 | a run from the start, with the guard of `savePoint`, that ends so: one thread parked with the mutex, another waiting for it |
| AllocationRequests.AsksTwice | heap.c:52-66 | in every run of every variant, a thread that finds no room asks for a minor collection first and for a full one next, and may give up exactly when it has asked for both |
| AllocationRequests.GivingUpLocksOut | heap.c:62 | after an allocation has given up as written no thread ever gets the allocation mutex again; when it is unlocked first, the next one can take it at once |
| SlotConcurrency.SlotsArePartitioned | indirection.c:74-137 | under every interleaving, slots 1 to numAddresses-1 and no others are each at exactly one place: owned, in a thread's hand, being released, listed, or lost to a failed node allocation; the page capacity covers them |
| SlotConcurrency.FragmentsAreCounted | indirection.c:79-137 | under every interleaving the fragment count is listed plus released plus lost slots, but for a pop in progress, and none of these has an address |
| SlotConcurrency.WritesOwnSlots | indirection.c:86-119 | a step writes the table only at a slot its thread owns or has in hand |
| SlotEntries.HandedOutReserved | indirection.c:86-102 | in every run a slot that is handed out is reserved, for the thread that gets it |
| SlotEntries.StoredStays | indirection.c:15-19 | in every run, what a thread stores in a slot of its own stays there until it stores something else or releases the slot, whatever others do |
| SlotEntries.OneWayOn | indirection.c:92-100 | inside the table's section a thread has one way to go on, and never none |
| SlotConcurrency.FailedGrowthLeaksTheMutex | indirection.c:92-96 | in every run the table mutex is held by nobody inside its section if and only if, as written, some growth has failed, and then no thread enters the section again |
| SlotConcurrency.GrowthCanFailIff | indirection.c:92-96 | as written there is such a run by a set of threads if and only if there are two of them |
| SlotConcurrency.LimitHoldsIff | indirection.c:75-76 | as written the slot limit holds in all runs of a set of threads if and only if it is a single thread |
| SlotConcurrency.NoBoundForTwo | indirection.c:75-100 | any two threads can come to any number of addresses: past the limit the test never fires again |
| SlotConcurrency.LimitHoldsLocked | indirection.c:75-100 | tested under the mutex, the limit holds in all runs of any number of threads |
| SlotConcurrency.AllocatesAlone | indirection.c:74-105 | an allocation that nobody interrupts takes the head of the list or the next address, as the sequential models do |
| SlotConcurrency.FreesAlone | indirection.c:114-137 | likewise for a release |
| SlotTable.AddressTable.GetRawAddress | indirection.c:9-13 | the entry of a slot, NULL outside the table |
| SlotTable.AddressTable.SetRawAddress | indirection.c:15-19 | changes that entry only, and never entry 0 |
| SlotTable.AddressTable.AllocateSlot | indirection.c:74-105 | takes the head of the free list or the next address, fails exactly at the limit or when growth fails, reserves the entry and changes no other; in a table in order the slot was free and is listed no more |
| SlotTable.AddressTable.FreeSlot | indirection.c:114-137 | clears the entry, lowers the top or lists and counts the slot, returns -1 exactly when no node was allocated, and keeps the table in order if the slot was issued and not given back before |
| SlotTable.AddressTable.TrimTop | indirection.c:147-149 | lowers the top past trailing NULL entries |
| SlotTable.TrimKeepsLive | indirection.c:147-149 | trimming drops no live and no reserved entry |
| SlotTable.AddressTable.ReleasePages | indirection.c:151-155 | cuts the table to whole pages that cover the top; `numPages` stays right if and only if no page was released or it is lowered |
| SlotTable.AddressTable.ReuseNodes | indirection.c:157-185 | the loop over the existing nodes: which holes they name and which are left |
| SlotTable.AddressTable.AddNodes | indirection.c:187-205 | the loop that adds nodes for the holes that are left, while memory lasts |
| SlotTable.AddressTable.RebuildFreeList | indirection.c:143-211 | ends, keeps every entry, and leaves the free list that the two loops make of the holes; the table is fit for use again if and only if `numPages` is right and, as written, there is no hole or at most one node |
| SlotTable.AddressTable.RebuildAndAllocateTwice | indirection.c:143-211 | the two allocations after a rebuild hand out the same slot if and only if, as written, there is a hole and two nodes or more for it |
| SlotTable.AdvancingRebuildIsExact | indirection.c:157-207 | advancing past each hole, with memory enough the list holds each NULL slot below the top exactly once |
| SlotTable.RebuildAsWritten | indirection.c:162-205 | as written the list is as long as memory allows and names one slot; it is the list of holes if and only if there is no hole, or one hole and one node |
| SlotTable.RebuildRepeatsAHole | indirection.c:188-204 | a table whose single hole is listed twice |
| SlotTable.PageCountGoesWrong | indirection.c:151-155 | a table of two pages of which one is enough: after a rebuild as written `numPages` stays two, and the table is not fit for use; under the limit of 15 one thread alone never gets a second page, any two can (SlotConcurrency.NoBoundForTwo) |
| SlotTable.AddressTable.ScanFingers | indirection.c:231-236 | the fingers stop at the first hole and the last live entry between them, or meet |
| SlotTable.AddressTable.TakeTurn | indirection.c:230-252 | one turn moves one entry and keeps the relation between table, relocation list and fragment count |
| SlotTable.AddressTable.CompactEntries | indirection.c:224-252 | the loop ends and relates the old table to the new one and the list |
| SlotTable.AddressTable.CompactAddressTable | indirection.c:220-272 | the same with the pages released, the top and the counts as the code leaves them, and an empty free list; fit for use if and only if `numPages` is right |
| Compaction.RelocateOne | indirection.c:237-249 | a move keeps the relocation relation, with every new slot below and apart from every old slot |
| Compaction.FingersMeet | indirection.c:230-252 | when memory lasts, the live slots form a prefix |
| Compaction.NullAbove | indirection.c:247 | nothing is left at or above the top that is stored |
| Compaction.OrderDoesNotMatter | gc.c:147-176 | applying the list one node at a time, in any order, is the simultaneous substitution |
| Compaction.LiveSlotFollows | indirection.c:241-245 | every live slot's address is found at its remapped slot |
| Compaction.RemapIsInjective | indirection.c:241-245 | no two live slots are merged |
| Compaction.NothingAppears | indirection.c:241-242 | every live slot of the new table is the image of one of the old |
| Compaction.GraphIsPreserved | gc.c:148-176 | every chain of field accesses from every reference arrives at the same address before and after, whatever the order of the list |
| Compaction.NoReservedIsRead | gc.c:149 | the client dereferences a moved entry, and that is an object for every node if and only if no reserved entry was behind the place of the last live one; for a compaction that has a node for every gap |
| Compaction.OwnSlotsFollow | gc.c:149 | after the client has written the slot field of each moved object, every object knows the slot it is found under, whatever the order of the list |
| Compaction.LiveCountKept | indirection.c:241-242 | the number of live slots stays |
| Compaction.MovesAreGaps | indirection.c:230-252 | as many slots are moved as there were holes among the first so many slots as are live, when there are nodes for all |
| Compaction.AnotherGap | indirection.c:237-240 | an allocation fails only when there are more such holes than nodes |
| Compaction.TopIsTightIff | indirection.c:247 | the top ends right after the last live slot if and only if the entry after the live prefix was occupied, or there was nothing to cut |
| Compaction.TopStaysHigh | indirection.c:247 | a table whose free last slot is not given back |
| Compaction.FragmentCountIsExactIff | indirection.c:233-254 | each vacated slot being subtracted twice, the fragment count is right if and only if there was no hole, or one and none among the first so many slots as are live, or one such gap and an occupied slot right behind them |
| Compaction.FragmentCountUnderflows | indirection.c:233-254 | a table with two live slots above two holes, whose every compaction wraps the count to the largest `size_t` |
| Compaction.CountedOnceIsExact | indirection.c:233-254 | subtracted once, an exact fragment count stays exact, also when the nodes run out |
| HashMap.MaskIsRemainder | hashmap.c:94 | the mask of a power of two is the remainder |
| HashMap.MoveBucket | hashmap.c:70-79 | relinking one chain keeps every entry exactly once, in the bucket of its hash |
| HashMap.Expanded | hashmap.c:61-84 | doubling keeps the map and the invariant of chains; `prev` stays NULL exactly at the bucket heads if and only if no two entries shared a bucket, or the repair is in force; of the entries that go to one bucket the last becomes the first |
| HashMap.SecondEntryIsStale | hashmap.c:75-78 | two entries of one bucket go to two, and the second keeps the first as its `prev` |
| HashMap.InsertKeeps | hashmap.c:108-118 | pushing a new node keeps the invariant and adds the entry |
| HashMap.ReplaceKeeps | hashmap.c:100-104 | overwriting a value keeps the invariant and updates the entry |
| HashMap.DeleteKeeps | hashmap.c:130-140 | unlinking a node that is not first in its bucket, or any with the repair, keeps the invariant and removes the entry |
| HashMap.DeletedHeadDangles | hashmap.c:132-137 | unlinking the first node as written leaves a bucket pointing to freed memory, so that no invariant holds |
| HashMap.OnlyEntryDangles | hashmap.c:132-137 | the smallest such table |
| HashMap.InsertedIsFirst | hashmap.c:108-118 | a new entry becomes the first of its bucket, and every other bucket keeps its first entry |
| HashMap.DoublingPutsSecondFirst | hashmap.c:70-79 | two entries of one bucket go to one other: the second is first there, and deleting the other leaves nothing dangling |
| HashMap.JustInsertedDangles | classloader.c:392 | so a class that fails to load before another has been entered leaves its bucket pointing to the freed entry; after other puts, which may double the table, Table.Put says which entries are first |
| HashMap.Walk | hashmap.c:150-157 | the walk along `next` finds the node with an equal key, or there is none in the chain |
| HashMap.FindIn | hashmap.c:146-159 | a lookup finds the one entry with an equal key, for any equality that is an equivalence respected by the hash |
| HashMap.PutInto | hashmap.c:90-120 | refines the map update, expansion and allocation failure included, and says which entry is first in every bucket afterwards |
| HashMap.DeleteFrom | hashmap.c:127-143 | refines the map removal; the table is damaged exactly when the entry was first in its bucket and the code is as written |
| HashMap.EntriesOf | hashmap.c:184-196 | writes each entry exactly once, within the room allocated |
| HashMap.Table.Get | hashmap.c:146-159 | answers the map's value for an equal key |
| HashMap.Table.Contains | hashmap.c:161-174 | answers whether the map has an equal key |
| HashMap.Table.Put | hashmap.c:86-121 | inserts or replaces and returns the old value, for every answer of the allocator; an entry is first in its bucket afterwards exactly if it is the new one, or was first before, or, when the table was doubled, was last of those that went to that bucket, and the new one is elsewhere |
| HashMap.StaysLight | hashmap.c:90-91 | while memory lasts the number of entries stays less than one above what the load factor allows, and the table doubles only when that is reached |
| HashMap.Table.Entries | hashmap.c:176-199 | lists the map |
| HashMap.Table.Delete | hashmap.c:123-144 | removes and returns the value; the table stays valid if and only if the key was absent or not first in its bucket (or the repair is in force) |
| HashMap.PutMeaning | hashmap.c:86-121 | after a put, a lookup of an equal key answers the new value and any other lookup is unchanged |
| HashMap.DeleteMeaning | hashmap.c:123-144 | after a delete, equal keys are absent and any other lookup is unchanged |
| HashMap.SequenceMeaning | hashmap.c:86-159 | after any sequence of puts and deletes a lookup answers what the last operation on an equal key says |
| JLock.MutualExclusion | jlock.c:15-38 | in every reachable state at most one thread holds the lock, the unsynchronised test is true exactly for the holder, and the count is its nesting depth |
| JLock.ReleasedIff | jlock.c:26-38 | an undone acquire releases the mutex if and only if it leaves a multiple of the counter's range, and nothing else releases it |
| JLock.WrapReleasesEarly | jlock.c:15-38 | a run in which undoing one acquire of 2^32 + 1 releases the mutex |
| JLock.RefinesAtomicLock | jlock.c:15-38 | every step does nothing to the atomic lock, acquires it when available, or releases it when owned |
| Initialization.TrueIsRight | bytecode_interpreter.c:100-196 | in every run, true is returned only for a class that is initialised or being initialised by the caller (JVMS 5.5) |
| Initialization.InitializedForever | bytecode_interpreter.c:110-119 | an initialised class stays so |
| Initialization.ClinitCompletesOnce | bytecode_interpreter.c:186-194 | an initializer completes at most once, and never for a class that is still to be initialised |
| Initialization.ClinitNotSkipped | bytecode_interpreter.c:158-194 | an initialised class with an initializer has completed it exactly once |
| Initialization.OneInitializer | bytecode_interpreter.c:105-119 | at most one activation, on one thread, is initialising a class, and it holds the class lock |
| Initialization.SuperclassFirst | bytecode_interpreter.c:119-125 | a class becomes initialised only by the thread initialising it, and only when its superclass is initialised or being initialised by that thread |
| Initialization.BornNeverRun | classloader.c:123-176 | a class that was born initialised is never initialised again |
| InitializationOutcome.FalseIff | bytecode_interpreter.c:100-197 | in every run an activation that returns, returns false if and only if, since it was called, its constant values could not be set up, its initializer ended badly, or the call for its superclass returned false |
| InitializationOutcome.ReturnsIff | bytecode_interpreter.c:100-197 | an activation returns exactly when the thread's stack gets lower |
| InitializationOutcome.GoodRunsSucceed | bytecode_interpreter.c:100-197 | in a run in which nothing ends badly every activation that returns, returns true, and leaves its class initialised or being initialised by its caller |
| InitializationOutcome.GoodThreadInitializes | bytecode_interpreter.c:109-196 | from every reachable state, a thread that calls for a class whose superclass chain is finite and whose locks can be had, and for which nothing fails, initialises all of the chain by its own steps alone, with one run of each initializer, gives the locks back and changes nothing else |
| ClassLoading.LoadWorks | classloader.c:403-441 | a load terminates within a depth that falls with the files not yet entered, keeps what was there, and enters the class if and only if it succeeds |
| ClassLoading.RequestWorks | classloader.c:443-448 | after a request no load is under way, and after a failed one no remaining class refers to the class, given that its entry is removed |
| ClassLoading.AlwaysWellFounded | classloader.c:148-153 | after any sequence of requests the superclass and interface relation is closed and well founded |
| ClassLoading.NoCycles | classloader.c:405-412 | no loaded class is its own superclass or superinterface, however far up |
| ClassLoading.LoadSucceeds | classloader.c:225-254 | a class whose dependencies can be put in order is loaded, also in the middle of other loads that none of them is part of |
| ClassLoading.LoadExact | classloader.c:403-441 | a request succeeds if and only if the class is there, or its dependencies are all there or well formed, without a circle |
| LoadedClasses.RequestLeaves | classloader.c:225-254 | after any request, successful or not, exactly those classes have been added that can be loaded and that the load has come to: from the class asked for, and from each class on the way that was not there, to its superclass and its interfaces up to the first that cannot be loaded |
| LoadedClasses.FailureKeepsNeeds | classloader.c:225-254 | what a class needs and can be loaded stays in the table when the class itself fails for a later need |
| LoadedClasses.OkIff | classloader.c:403-441 | also in the middle of other loads a load succeeds exactly for what can be loaded |
| ClassLoading.PrimitiveWorks | classloader.c:123-145 | a primitive class is there afterwards, initialised, and nothing else is new |
| ClassLoading.Diverges | classloader.c:219-232 | a file that declares another name and extends the name it is found under is parsed for ever |
| ClassLoading.TerminationExact | classloader.c:219-223 | loading terminates for all files with given declared names if and only if every file that can be asked for declares the name it is found under |
| ClassLoading.CheckedTerminates | classloader.c:219-223 | a loader that takes a file under another name for missing terminates for all files |
| ClassLoading.ClassLoader.LoadClass0 | classloader.c:403-441 | the method leaves the table and result of the specification |
| ClassLoading.ClassLoader.LoadArrayClass | classloader.c:155-176 | likewise for arrays, which extend Object |
| ClassLoading.ClassLoader.ParseClassFile | classloader.c:219-254 | enter as LOADING, load superclass and interfaces, complete or remove (see Left out for the removal) |
| ClassLoading.ClassLoader.LoadInterfaces | classloader.c:247-254 | the loop stops at the first interface that fails |
| FieldLayout.Layout | classloader.c:334-350 | the loop puts every field behind those of its kind before it, in 16-bit arithmetic |
| FieldLayout.FieldsApart | classloader.c:340-350 | fields of a kind do not overlap when their area fits |
| FieldLayout.WithinIff | classloader.c:340-350 | all fields of a kind lie inside their area if and only if its size fits 16 bits |
| FieldLayout.StaticsAligned | classloader.c:178-181 | because of the sort every static field is naturally aligned |
| FieldLayout.SortedIsDescending | classloader.c:178-181 | the order that the comparison makes is by descending size |
| FieldLayout.InstancesAlignedIff | classloader.c:335-348 | instance fields are naturally aligned if and only if the superclass ends at a multiple of eight or none takes eight bytes |
| FieldLayout.LongAfterIntIsNotAligned | classloader.c:335-348 | a long behind a superclass with a single int is at a multiple of four only |
| FieldLayout.ChainSizeIsSum | classloader.c:335-348 | the size along a chain is the sum over all its classes |
| FieldLayout.ChainIsOneLayout | classloader.c:335-348 | a class is laid out as if it declared its superclasses' fields first |
| FieldLayout.ChainApart | classloader.c:335-350 | along a chain that fits 16 bits all instance fields are apart and inside the object behind its header |
| Bytes.ValueOfDigits | constantpool.c:111-142 | reading an unsigned number inverts printing it, for every width |
| Bytes.ReadsEncoded | bytecode_interpreter.c:53-59 | reading a signed 32-bit operand inverts encoding it |
| Switches.AlignmentAgreesIff | bytecode_interpreter.c:1702 | the address is padded as the position is if and only if the code starts at a multiple of four |
| Switches.AdvancingSearch | bytecode_interpreter.c:1718-1729 | the search that advances ends and finds the key or its absence |
| Switches.WrittenSearchExact | bytecode_interpreter.c:1718-1729 | as written it ends if and only if the table is empty, the key is in it or below it, and then it is right |
| Switches.LookupSwitchBranches | bytecode_interpreter.c:1731-1749 | with the advancing search, for every position, table and key the branch is the pair's offset or the default (JVMS 6.5) |
| Switches.WrittenLookupSwitchExact | bytecode_interpreter.c:1731-1749 | the same for the code as written, under its exact condition |
| Switches.WrittenLookupSwitchHangs | bytecode_interpreter.c:1725-1726 | one pair and a key above it never come back |
| Switches.TableSwitchBranches | bytecode_interpreter.c:1699-1716 | with the index scaled by four, the branch is entry index-low or the default (JVMS 6.5) |
| Switches.WrittenTableSwitchReads | bytecode_interpreter.c:1712 | as written the four bytes at byte index-low of the table are read |
| Switches.SpikeIsMissed | bytecode_interpreter.c:1712 | for every index above low, a table for which the wrong number is read |
| Switches.WrittenTableSwitchExact | bytecode_interpreter.c:1712 | that is the right entry for all tables if and only if index is low |
| OperandStack.FlatInjective | jthread.c:122-132 | the tags alone tell the values on the stack apart |
| OperandStack.DupForms | bytecode_interpreter.c:871-947 | the shuffle on slots is every form that the JVMS allows for the dup family, whatever is below |
| OperandStack.SwapForm | bytecode_interpreter.c:949-958 | likewise for swap |
| OperandStack.WrittenDupExact | bytecode_interpreter.c:871-876 | `dup` as written is right if and only if the four bytes below the stack are those of the cell on top; in both layouts, with four slots or more, these are the last four type tags |
| OperandStack.WrittenDup2Exact | bytecode_interpreter.c:905-912 | `dup2` as written is right if and only if the four bytes it reads are those of the second cell and, with the tag that its first push writes among them, those of the cell on top; in both layouts, with eight slots or more, these are four type tags |
| OperandStack.PeekReadsTags | jthread.c:106-110 | the cell counted from the base is four bytes of the tag area, if that is large enough |
| OperandStack.TagAreaSize | jthread.c:40-43 | in both layouts the tag area has at least a byte for every slot, and at most seven more |
| OperandStack.Dup2PushesTags | bytecode_interpreter.c:905-912 | two ints on which `dup2` pushes their tags instead, and two different cells |
| OperandStack.StackFrame.PushOperand | jthread.c:122-125 | writes one tag byte and one cell, which adds one slot on top and changes no other slot and no local; what else lies there is said by the rows of FrameLayout |
| OperandStack.StackFrame.PopOperand | jthread.c:94-98 | takes the top slot |
| OperandStack.StackFrame.PushOperand2 | jthread.c:127-132 | adds two slots with the same tag |
| OperandStack.StackFrame.PopOperand2 | jthread.c:100-104 | takes the top two slots |
| OperandStack.StackFrame.PeekOperand | jthread.c:106-110 | the tag counted from the top, the cell counted from the base, out of the bytes below it, unless repaired |
| OperandStack.StackFrame.PeekOperandType | jthread.c:118-120 | the tag counted from the top |
| OperandStack.StackFrame.Dup | bytecode_interpreter.c:871-876 | the shuffle, or what the code as written makes of the bytes below the stack |
| OperandStack.StackFrame.DupX1 | bytecode_interpreter.c:878-888 | the shuffle of one slot under one |
| OperandStack.StackFrame.DupX2 | bytecode_interpreter.c:890-903 | one slot under two |
| OperandStack.StackFrame.Dup2 | bytecode_interpreter.c:905-912 | likewise, with the second peek after the first push |
| OperandStack.StackFrame.Dup2X1 | bytecode_interpreter.c:914-928 | two slots under one |
| OperandStack.StackFrame.Dup2X2 | bytecode_interpreter.c:930-947 | two slots under two |
| OperandStack.StackFrame.Swap | bytecode_interpreter.c:949-958 | exchanges the top two slots |
| OperandStack.StackFrame.XLoad | bytecode_interpreter.c:289-325 | pushes the local under the instruction's tag |
| OperandStack.StoresInPlace | bytecode_interpreter.c:303-335 | when the stack and the locals are large enough a store moves the top one or two cells and no other |
| OperandStack.StackFrame.XStore | bytecode_interpreter.c:303-316 | moves as many cells as the tag of the top says, from wherever the sixteen-bit top of the stack then points |
| OperandStack.StackFrame.XStoreN | bytecode_interpreter.c:327-335 | moves as many cells as the tag it looks at says, also from a stack with fewer |
| OperandStack.StackFrame.L2d | bytecode_interpreter.c:1354-1360 | replaces two slots by two with the tag of an int, or of a double when repaired |
| OperandStack.XStoreExact | bytecode_interpreter.c:310-314 | going by the tag of the top stores the value exactly when it is well tagged |
| OperandStack.XStoreNExact | bytecode_interpreter.c:329-333 | going by the tag further down stores the value if and only if that tag has the same width |
| OperandStack.XStoreNTakesTooMuch | bytecode_interpreter.c:327-335 | an int above a long on which `istore_1` takes half of the long along |
| OperandStack.L2dThenStore | bytecode_interpreter.c:1354-1360 | what `l2d` pushes is stored rightly if and only if the tag is repaired |
| Instructions.InstructionExact | bytecode_interpreter.c:289-335 | one instruction admitted by the verifier of the JVMS leaves the slots and locals of the values that the JVMS says, but for the cells that `dup` and `dup2` as written repeat, if and only if it is not `l2d` as written or a store by a tag of another width |
| Instructions.SplitFinds | bytecode_interpreter.c:871-947 | the instructions of the dup family are admitted on all the forms that the JVMS allows |
| Instructions.StaysTagged | bytecode_interpreter.c:871-958 | every instruction leaves well tagged values of well tagged ones |
| Instructions.SequenceExact | bytecode_interpreter.c:289-335 | in every sequence of such instructions the stack stays in step with the values, so that every store takes exactly the value on top, if and only if none of these two is executed; with the repairs it always does |
| Instructions.Execute | bytecode_interpreter.c:289-335 | the methods on the frame's bytes do what these results are about |
| OperandStack.LoadAfterStore | jthread.c:74-92 | loading what was stored pushes the value again |
| FrameLayout.FirstFrameApartIff | jthread.c:35-43 | in a thread's first frame locals, tags and cells are apart, and apart from the frame structure if and only if the method needs no stack, or the size of the structure is added |
| FrameLayout.ClinitFrameApartIff | bytecode_interpreter.c:175-182 | so are those of a class initializer's frame, and apart from the structure of a caller that is a first frame if and only if it takes no room or the caller's stack reaches beyond its structure |
| FrameLayout.FieldsTile | jthread.h:13-21 | every byte of the structure belongs to the field that its position says |
| FrameLayout.PushSparesFrameIff | jthread.c:122-125 | in a first frame as written a push leaves the structure alone if and only if 48 slots or more are below it |
| FrameLayout.FirstPushHitsMethod | jthread.c:122-125 | with up to eight slots the very first push goes over the pointers to the return address and to the method |
| FrameLayout.PushAppends | jthread.c:122-125 | on the slots a push is an append, and the locals stay |
| Heap.RegionsTileIff | heap.c:31-38 | the regions fill the mapping exactly if and only if its size is a multiple of eight; then the old generation is half of it, eden a quarter, and the two halves of the young generation are equal |
| Heap.AdmittedHeap | main.c:76-79 | the sizes the option admits make eden's size a multiple of eight |
| Heap.AlignExact | utils.h:21 | aligning gives the least multiple of eight that is not below, and 0 where that would not fit 64 bits |
| Heap.ObjectsApart | heap.c:50-104 | in every run of allocations objects are 8-aligned, pairwise apart and inside eden |
| Heap.EdenInBoundsIff | heap.c:52-68 | the next position stays inside eden in every run if and only if eden's size is a multiple of eight |
| Heap.AnsweredBySizeIff | heap.c:50-104 | every request is given a place or refused on its size alone if and only if none but the last is refused, or the mutex is released then |
| Heap.FailureBlocksOthers | heap.c:60-63 | after a request for more than there is, one for a single byte waits for ever |
| Heap.ArrayFits | heap.c:78 | an array has room for header and elements if its length is not negative, and otherwise less than its header or more than any eden |
| Heap.Heap.Bump | heap.c:50-75 | succeeds exactly when there is room, and returns the next position |
| Heap.Heap.AllocateArrayObject | heap.c:77-104 | the same for the size an array takes |
| ObjectCreation.AllocateTakesHead | indirection.c:74-105 | allocation takes the supply's head and fails exactly when there is none |
| ObjectCreation.SupplyDistinct | indirection.c:74-105 | no slot is handed out twice, and 0 never |
| ObjectCreation.NewObjectWorks | mm.c:15-29 | succeeds exactly when there is a slot and room, and the table leads from a slot that led nowhere to the object and back, with every earlier entry kept |
| ObjectCreation.NewArrayWorks | mm.c:31-78 | succeeds if and only if slots, room and classes suffice for the whole tree, and then builds a rectangular tree on exactly the next slots, which led nowhere, and the next extents, with every earlier entry and object kept |
| ObjectCreation.NewArraysWorks | mm.c:64-70 | the same for the arrays of one level |
| ObjectCreation.NewArraySurvives | mm.c:31-78 | whatever the sizes, successful or not, a call keeps every earlier entry and object, adds entries only at slots that led nowhere, and leaves no slot that leads to an object to be handed out again |
| ObjectCreation.CountAllIsProduct | mm.c:62-71 | the number of arrays is 1 + s0 + s0*s1 + ... |
| ObjectCreation.StorageApart | mm.c:53-60 | the arrays' slots are distinct and their storage is pairwise apart, inside eden |
| ObjectCreation.FailureTakesNothing | mm.c:49-55 | a call that fails before its first array is there leaves the same slots to be handed out, and no entry, object or extent |
| ObjectCreation.FailedObjectTakesNothing | mm.c:18-22 | likewise for an object |
| ArrayExtents.ElementSizeExact | classfile.c:42-60 | the width found from an array class's name is that of its elements if and only if the component is not a class with a one-letter name, in an array of one dimension, for which another width is found |
| ArrayExtents.OneLetterClassIsMistaken | classfile.c:22-24 | an array of references to a class called J takes eight bytes for each, one of a class called P none |
| ArrayExtents.ArraysAreRoomy | mm.c:52-71 | a successful call for any other component type gives every array of the tree, followed from its slot, an extent for its header and exactly its elements, at the widths of the JVMS |
| ArrayExtents.ElementsApart | mm.c:63-69 | the elements in such an extent are pairwise apart, behind the header and inside the extent |
| ObjectCreation.AtMostFourteen | indirection.c:75 | from the start, a call as written creates at most fourteen arrays, and up to that many when the rest suffices |
| ObjectCreation.ObjectMemory.CreateObject | mm.c:15-29 | the method computes the specification |
| ObjectCreation.ObjectMemory.CreateArray | mm.c:31-78 | likewise |
| ObjectCreation.ObjectMemory.CreateElements | mm.c:64-70 | likewise for the loop |
| ConstantPool.ParsesPrinted | constantpool.c:23-103 | every well-formed entry reads back and the parser stops behind it |
| ConstantPool.TagsAreThoseOfTheFormat | constantpool.c:23-103 | for every tag of Table 4.4-A of the JVMS what is read behind it, and that no other tag is taken |
| ConstantPool.PoolRoundTrip | constantpool.c:11-109 | with two indices for Long and Double, parsing inverts printing for every pool (JVMS 4.4) |
| ConstantPool.WrittenPoolExact | constantpool.c:51-56 | as written the pool is parsed right if and only if it holds no Long or Double |
| ConstantPool.LoneLongFails | constantpool.c:51-56 | a pool with a single long is not parsed at all as written |
| ConstantPool.ParseConstantPool | constantpool.c:11-109 | the loop computes the specification |
| Attributes.AttributesRoundTrip | attributes.c:10-101 | for every pool and every tree of attributes with the names of JVMS 4.7 in that pool, parsing inverts printing, up to skipped bodies, and ends at its end |
| Attributes.KindsAreNames | attributes.c:13-80 | the comparisons recognise exactly the texts Code, ConstantValue and Signature |
| Attributes.ParsedIsNamed | attributes.c:11-15 | an attribute is parsed only if the pool has a text for its name, as what that text says, and a skipped one up to its length |
| Attributes.SampleParses | attributes.c:26-66 | the bytes of a code attribute with a handler and a nested attribute, and what is parsed from them |
| Attributes.SampleIsNamed | attributes.c:26-66 | that attribute is one of the trees of the round trip |
| Attributes.CodeParses | attributes.c:26-66 | likewise for a code attribute with all that is nested in it |
| Attributes.HandlersParse | attributes.c:46-53 | likewise for exception tables |
| Attributes.ParseAttributes | attributes.c:10-101 | the loop, with its recursion, computes the specification |
| Attributes.ParseHandlerTable | attributes.c:46-53 | likewise for the inner loop |
| Descriptors.LastFound | dataTypes.c:57-62 | the scanner finds the end of every printed type |
| Descriptors.CountIsWidths | dataTypes.c:52-70 | the intended count is the sum of the widths, and one for an instance (JVMS 4.3.3) |
| Descriptors.WrittenCountExact | dataTypes.c:57-65 | as written the count is right if and only if no parameter is an array of long or double |
| Descriptors.ArrayOfLongCountsTwice | dataTypes.c:57-65 | for ([J)V as written two parameter words are counted |
| Descriptors.CountNumParameters | dataTypes.c:52-70 | the loops compute the specification |
| Descriptors.ScanType | dataTypes.c:57-62 | likewise for the inner loops |
| Descriptors.TypeOfParameter | dataTypes.c:24-42 | the index counts parameters: that of parameter k gives its type |
| TypeLetters.LettersAgree | dataTypes.c:8-70 | for each primitive type of the JVMS its letter has the same category, code and field size for descriptors, fields and the operand stack |
| Descriptors.LocalTypeExact | dataTypes.c:24-42 | the index of a local variable that holds a parameter is the one looked for, and then gives its type, if and only if no parameter before it is a long or a double; otherwise the type is a later parameter's |
| Descriptors.LocalAfterLong | dataTypes.c:24-42 | in a static (JI)V the int is local 2, for which no type is found |

## Left out

- Compilers and weak memory: shared accesses happen in program order, one at a time; `gcWantsToRun`, the counters and `class->status` are not atomic in C.
- The order of the two reads in the comparison at gc.c:120 is open in C; both orders are modelled.
- The bodies of the collections, live-object discovery and `moveToActiveHalf`, `moveToOldGeneration`: unfinished in the source; a collection leaves eden as it is.
- `registerThread` failing in `realloc`: the thread then runs unregistered, as the caller ignores the result; the model requires callers of `savePoint` to be registered.
- `mremap` moving the table while another thread reads or writes an entry: table accesses are atomic in the model.
- The truncation of `numAddresses` to the 32 bits of `slot_t` at indirection.c:100: slots are unbounded here, so the results on the concurrent slot table are about runs with at most 2^32 addresses. Nothing in the code keeps two threads below that (NoBoundForTwo); the limit would, if it held.
- Growing a table whose `numPages` is wrong: AllocateSlot asks for a right one.
- HashMap: nodes are fields of a memory and buckets a sequence of addresses, so overlapping objects, and the pointer size in line 27's allocation, are not modelled; `ht_destroyHashmap` is left out.
- HashMap.Table.Put: the load-factor test is made on reals, so rounding of the `float` product is not modelled.
- `jlock_wait`, `jlock_notify`, `jlock_notifyAll`: condition-variable plumbing without a caller.
- Initialization: what interpreted code does between calls of `initializeClass` is arbitrary; constant values are stored but not modelled, and the busy wait is a step that is not enabled.
- Initialization: the JVMS puts a class whose initializer failed into an erroneous state; the code, and so the model, makes it LOADED again.
- ClassLoading: files, `mmap`, and `fileno` of a missing file, which is taken to fail cleanly; the clean-up after a failure reads `constantPool[0]`, which is NULL, and is taken to skip it.
- ClassLoading.ClassLoader.ParseClassFile: a class is its name, its status and its references; members, and the sharing of pointers to a class, are not followed. The entry of a failed class is removed as from a map; `ht_delete` as written does that only when the entry is not the first of its bucket (HashMap.Table.Delete). It is the first when it has been entered; an entry in the same bucket takes its place, and a doubling puts first the one that was last of those that share a bucket then (HashMap.Table.Put).
- ClassLoading.RequestWorks: the same removal.
- FieldLayout: `qsort` is known by what it leaves, a sorted order with ties in any order.
- Switches: `index - low` and `8 * mid` are taken in unbounded integers; a method's code is shorter than 65536 bytes, so only `offset + 12 + index` with an index near the largest int could overflow.
- OperandStack: the arguments of `pushOperand(…, peekOperand(…, &t), t)` are evaluated in unspecified order in C; the model takes the peek first. Reading the operands of loads and stores, and the value `l2d` computes, are not modelled; loads reach no further than the locals.
- OperandStack.StackFrame.PushOperand: the bases stay those the frame was created with; once a push has gone over them in the frame structure (FrameLayout.PushSparesFrameIff) the code goes on with others. `topOfStack` is a field of its own.
- FrameLayout: the structure's own layout is that of x86-64, with 56 bytes.
- Safepoint.CollectorRunsAlone: as written, for as long as the unmatched decrements and the room for threads together stay below the range of the 64-bit counter; the same bound is part of what SafepointProgress and AllocationSafepoint say about continuations.
- Instructions: only those that OperandStack models; the reference machine takes the cells that `dup` and `dup2` as written repeat from the code, as these are wrong there.
- AllocationSafepoint: whether there is room is left open at every test, and the waiting count is read first; threads that allocate before they are registered, or before their first `savePoint`, are not modelled.
- Heap.Heap.AllocateArrayObject: a byte count beyond `int` is undefined in C, and excluded.
- ObjectCreation: one thread at a time; slots are those of the free list and behind the top, without page growth; fields of objects are not followed, elements are recorded when an array is complete, and elements after a failure are garbage in C.
- ObjectCreation.NewArrayWorks: which arrays exist after a failed call is said only by the specification itself; NewArraySurvives says what it keeps.
- ConstantPool, Attributes: reading past the end of the data, which C does not notice, is a failure in the model; names are compared as whole byte sequences.
- Descriptors: a descriptor that ends too early, which C reads past, gives no answer in the model.
- Descriptors.WrittenCountExact: stated for fewer than 32767 parameter words, far beyond the 255 of JVMS 4.3.3, so that the 16-bit counter does not wrap; the same for Descriptors.CountIsWidths with 65535.
- Command-line parsing, class-file search, exceptions, method invocation, floating point and the single-instruction handlers.
