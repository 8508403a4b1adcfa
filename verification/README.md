# VestaVM: a verified model

VestaVM is a virtual machine with a generational garbage collector, a virtual memory
layer, an assembler with macros and imports, an allocator for native calls and a
distributed runtime. This project models the stateful cores of these parts in Dafny and
proves what they promise over every input, every step and every run. Where a promise does
not hold of the code, the model keeps the code's behaviour, shows a case that fails, and
proves the exact condition under which the promise does hold.

`dafny verify dfyconfig.toml` checks the whole project.

| file | what it models |
|---|---|
| `Basics.dfy` | bytes, words, bits and facts that several parts need |
| `HeapTypes.dfy`, `PtrHandleMap.dfy`, `Handles.dfy` | addresses and handles; the open-addressing map from payload to handle; the handle table with its list of free slots |
| `OldGen.dfy` | the non-moving old generation: blocks tiled by slots, segregated free lists, sweep |
| `Reachability.dfy`, `TraceOrder.dfy`, `Evacuation.dfy`, `GcHeap.dfy` | marking with a worklist and the order in which it meets objects, evacuation of the nursery, minor and major collection, weak references |
| `HeapRuns.dfy`, `HeapReferences.dfy`, `StoredHandles.dfy` | runs of the whole heap against the objects that a program knows: allocation with its collections, loads, stores, pins, drops, words, weak references and collections; how words and weak references follow objects through them; which bytes of an object are a reference, and what chains of them keep |
| `CollectorLimits.dfy` | where the collector loses reachable objects or shares slots, and exactly when it does not |
| `Monitors.dfy`, `WaitTable.dfy` | reentrant monitors packed into one word, and the table of waiting processes |
| `RawAllocator.dfy`, `RawRuns.dfy` | slabs, free lists and the sorted chunk vector of the native allocator, and its runs |
| `Tlb.dfy`, `VirtualMemory.dfy`, `MemoryRuns.dfy` | the three-level translation tree, the page cache over it, and runs against one flat memory |
| `Imports.dfy` | expansion of imports over files that may import each other in cycles |
| `Fnv.dfy`, `MacroCache.dfy`, `MacroText.dfy`, `MacroKeys.dfy` | the macro scanners, what they find character by character, the FNV-1a cache key, and what the key depends on |
| `Mailbox.dfy`, `Messages.dfy`, `Delivery.dfy`, `Sessions.dfy` | mailboxes, at-least-once delivery over a network that loses, repeats and reorders, and the two nodes of a session that carry it out |
| `Adler.dfy`, `DirtyTracker.dfy` | Adler-32 with late reduction, and detection of changed pages |
| `ByteStreams.dfy`, `Sections.dfy` | the assembler's byte writer and reader, and the layout of sections |
| `Config.dfy`, `ConfigLines.dfy`, `ConfigRoundTrip.dfy` | the configuration printer and parser, what the parser makes of every text, and of what was printed |

Addresses and sizes are unbounded integers except where the width matters: 64-bit
addresses and sums that wrap, 32-bit sequence numbers, 16-bit monitor depth, 32-bit
checksum sums. Vectors, lists and hash maps that the program changes in place are fields of
type `seq` or `map` of a class; intrusive list links are modelled as the lists they form.
Memory comes from the host as a region that overlaps nothing in use, or not at all; what
the host answers is an input.

## Where the code differs from its documentation

- `drop` of a handle that is not live is documented to do nothing; the code pushes its slot
  on the free list again (`Handles.ReleasePreservesIff`, `Handles.DoubleDropAliases`).
- A major collection leaves the handles of swept objects live. A handle then names a dead
  slot unless the roots reach everything that has a handle (`GcHeap.Heap.MajorGc`), and the
  next allocation can give its slot to a second handle
  (`CollectorLimits.SharedAfterSweep`).
- The older note on `major_gc` says that marking is not transitive; the code marks
  transitively, and so does the model.
- The worklist filled from the remembered set is never processed, so what a remembered
  object reaches in two steps is lost (`CollectorLimits.GrandchildOfRememberedDies`,
  `CollectorLimits.MinorKeepsReachableIff`).
- An object without bytes has no room for the forwarding pointer of an evacuation, which
  then lands on the next header or outside the nursery. That does harm exactly if the
  header belongs to an object that a handle names and that has not moved yet
  (`GcHeap.HarmlessIff`, `GcHeap.Heap.MinorGc`, `HeapRuns.CollectHarmful`,
  `HeapRuns.EmptyObjectRun`, `HeapRuns.EmptyObjectLast`).
- A stack of 16 MB and more is not looked at after objects have moved, so a word there
  follows its object exactly if that did not move (`HeapReferences.CollectFollows`).
- The size in a header has 32 bits; `alloc_pinned` of more bytes succeeds and records the
  rest modulo 2^32 (`OldGen.OldSpace.Alloc`, `HeapRuns.HugeObjectRun`).
- A weak reference is documented to be null once its object was collected; a minor
  collection does not look at weak references, so one can name a younger object that got
  the same handle (`GcHeap.WeakAfterMinorIff`, `CollectorLimits.WeakNamesAnother`).
- An old-generation threshold of 0 is documented to turn automatic major collections off;
  the comparison `>=` makes it trigger one after every minor collection
  (`HeapRuns.ZeroThreshold`).
- `map` is documented to invalidate the page cache; it does not
  (`VirtualMemory.Memory.Map`, `MemoryRuns.ReadAfterMap`, `MemoryRuns.WriteAfterMap`,
  `MemoryRuns.ReadBlockAfterMap`, `MemoryRuns.WriteBlockAfterMap`).
- `map` registers no page at the end of the address space, because its rounded end leaves
  64 bits (`VirtualMemory.RangeZeroIff`, `MemoryRuns.LastPageRun`).
- `free` is documented to refuse a pointer that is not outstanding; a pointer inside a slab
  is pushed whatever it is (`RawAllocator.Allocator.Free`, `RawAllocator.DoubleFree`).
- `realloc` is documented to keep the common prefix; for slab blocks it returns a zeroed
  block and keeps the old one (`RawAllocator.Allocator.ReallocOutstanding`,
  `RawAllocator.ByteLostByRealloc`).
- An acknowledgement with an error code is treated as delivery
  (`Delivery.RefusalLosesTheMessage`).
- Process 0 is a valid owner, so an owner field of 0 means a free monitor exactly while
  process 0 holds nothing (`Monitors.OwnerTellsIff`), and process 0 can release a free
  monitor (`Monitors.TakesWaiterIff`, `Monitors.ReleaseOfFreeMonitor`).
- The kind of a wait queue is mixed into its hash above the bits that are kept, so it has no
  effect on the bucket (`WaitTables.KindHasNoEffect`).
- `detect` reports pages whose Adler-32 and BLAKE2s both differ from the baseline, not all
  whose BLAKE2s differs (`DirtyTracker.FoundExactly`).
- `compute_range` never moves the start of a section: its `bytes_aligned` has no effect
  (`Sections.Placed`). A section added twice is listed twice and counted twice
  (`Sections.Space.ComputeRanges`, `Sections.AddedTwice`).
- The configuration parser keeps the quotes that the printer writes
  (`ConfigRoundTrip.FieldRoundTrip`, `Config.ListReadBack`), and an empty list is not
  printed, so it comes back as the default list (`ConfigRoundTrip.EmptyListIsLost`).

## Model

| member | source | states |
|---|---|---|
| PtrHandleMap.ProbeMeetsEmpty | include/gc/gc_heap.h:130-213 | while fewer keys and tombstones than buckets are in use, every probe sequence meets an empty bucket, so probing ends |
| PtrHandleMap.ProbeMiss | src/gc/gc_heap.cpp:488-497 | a probe that meets an empty bucket before the key proves that the table does not hold the key |
| PtrHandleMap.PlaceRepresents | src/gc/gc_heap.cpp:464-477 | placing a new key in the first tombstone or the empty bucket of its probe adds exactly that entry to the represented map |
| PtrHandleMap.AssignRepresents | src/gc/gc_heap.cpp:480-483 | overwriting the value of a found key changes that entry only |
| PtrHandleMap.BuryRepresents | src/gc/gc_heap.cpp:505-512 | a tombstone removes exactly its key and keeps every other key reachable by its probe |
| PtrHandleMap.PtrTable.InsertOrAssign | src/gc/gc_heap.cpp:458-486 | the represented map becomes m[k := v]; the answer says whether k was new |
| PtrHandleMap.PtrTable.Find | src/gc/gc_heap.cpp:488-497 | the value in the represented map, or the null handle if the key is missing |
| PtrHandleMap.PtrTable.Erase | src/gc/gc_heap.cpp:499-515 | the represented map loses exactly the key; the answer says whether it was there, and is false for the null pointer |
| PtrHandleMap.PtrTable.Grow | src/gc/gc_heap.cpp:443-456 | doubling the table and reinserting keeps the represented map and drops all tombstones |
| PtrHandleMap.PtrTable.Reserve | src/gc/gc_heap.cpp:438-441 | growing until the threshold is large enough keeps the represented map |
| PtrHandleMap.PtrTable.Clear | src/gc/gc_heap.cpp:429-436 | the represented map becomes empty |
| PtrHandleMap.RunTable | include/gc/gc_heap.h:130-213 | in every run of insert, find, erase, clear, reserve and size the table answers as a finite map does; erasing the null pointer is answered with false |
| Handles.NewPreserves | src/gc/gc_heap.cpp:282-309 | a new handle was not live, now names its address, changes no other handle, and keeps the table consistent: free list exact and without repeats, reverse map exact |
| Handles.NewPreservesIff | src/gc/gc_heap.cpp:282-309 | a new handle for any address keeps the table consistent if and only if the address is not null and no live handle has it |
| Handles.KillLive | src/gc/gc_heap.cpp:311-332 | releasing a live handle keeps the table consistent |
| Handles.ReleasePreservesIff | src/gc/gc_heap.cpp:311-332 | a drop keeps the table consistent if and only if the handle is out of range, pinned or live |
| Handles.DoubleDropAliases | src/gc/gc_heap.cpp:311-332 | after a double drop the next two allocations get one and the same handle |
| Handles.MovePreserves | src/gc/gc_heap.cpp:1056-1066 | redirecting a live handle keeps the table consistent and every other handle's address |
| Handles.LiveHandlesDistinct | include/gc/gc_heap.h:825-845 | two live handles never share an address |
| Handles.HandleForPtrInverts | src/gc/gc_heap.cpp:334-340 | handle_for_ptr(p) is h if and only if deref(h) is p |
| Handles.RunKeepsInv | include/gc/gc_heap.h:1230-1245 | over every run of table steps (allocation at an unused address, legal drop, evacuation, sweep) the table stays consistent; HeapRuns.RunHeap is the same for the operations of the heap |
| Handles.HandleSpace.NewHandle | src/gc/gc_heap.cpp:282-309 | the fields after the call are those of the specified table, LIFO reuse included; consistent if and only if the address was unused |
| Handles.HandleSpace.ReleaseHandle | src/gc/gc_heap.cpp:311-332 | the fields follow the specified release for any argument; the result is consistent exactly under the stated condition |
| Handles.HandleSpace.MoveHandle | src/gc/gc_heap.cpp:1056-1066 | handle and reverse map move together |
| Handles.HandleSpace.KillHandle | src/gc/gc_heap.cpp:1290-1293 | the handle of a dead young object is erased from the reverse map and freed |
| Handles.HandleSpace.FindHandle | src/gc/gc_heap.cpp:334-340 | the lookup in the reverse map is the specified handle_for_ptr |
| Handles.RefAdded | src/gc/gc_heap.cpp:999-1004 | one more reference is counted for the handle, which is then pinned, and for no other; the null handle is left out |
| Handles.RefReleased | src/gc/gc_heap.cpp:1006-1017 | one reference less for the handle if it had any, and no other count changes |
| OldGen.ClassCeilExact | src/gc/gc_heap.cpp:1512-1520 | a class size is the smallest class that holds itself, so a freed slot returns to its own class |
| OldGen.SmallestSlot | src/gc/gc_heap.cpp:1614-1620 | a new slot is the smallest that holds the request and returns to a list of its own size |
| OldGen.SpanServesIff | src/gc/gc_heap.cpp:1562-1612 | a dead slot serves a request if and only if it is large enough and, for a small request, at most two class sizes that would do lie below it |
| OldGen.SlotsDisjoint | include/gc/gc_heap.h:1327-1345 | two slots of a tiled heap never overlap |
| OldGen.BumpTiles | src/gc/gc_heap.cpp:1621-1632 | a slot bumped off a block extends the tiling of its used prefix |
| OldGen.AddBlockTiles | src/gc/gc_heap.cpp:1637-1655 | a new block of a fresh region keeps the tiling and the disjointness of blocks |
| OldGen.PopSmallExact | src/gc/gc_heap.cpp:1562-1596 | after popping a small slot the free lists still hold exactly the dead slots, once each |
| OldGen.TakeLargeExact | src/gc/gc_heap.cpp:1598-1612 | the same for the large list with its swap-with-last removal |
| OldGen.PushExact | src/gc/gc_heap.cpp:1533-1551 | pushing a dead slot files it in its own class or the large list, and the lists stay exact |
| OldGen.SweepStep | src/gc/gc_heap.cpp:1440-1461 | one slot of the sweep: white dies and leaves the bytes in use, dead is listed, black stays |
| OldGen.WalkStep | src/gc/gc_heap.cpp:1440-1461 | the cursor steps from slot to slot and ends at the end of the used prefix |
| OldGen.OldSpace.AllocInOldWithTotal | src/gc/gc_heap.cpp:1558-1656 | returns a slot at least as large as asked that is dead or new, the head of its list if there is one, reports its real total, and adds it to the bytes in use; it fails if and only if no dead slot of a class that is searched, no block and no grant of the host serves, and then only the host was asked |
| OldGen.OldSpace.Alloc | src/gc/gc_heap.cpp:936-955 | the slot overlaps no live object; the header holds the size modulo 2^32; tiling, exact free lists and the count of live bytes are kept if and only if 32 bits hold the size; what can be spared shrinks by the slot at most; it fails if and only if nothing serves |
| OldGen.OldSpace.FreelistPush | src/gc/gc_heap.cpp:1533-1551 | the lists after the push, by the class of the slot |
| OldGen.OldSpace.SweepBlock | src/gc/gc_heap.cpp:1436-1462 | the walk over a block sweeps exactly its slots |
| OldGen.OldSpace.Sweep | src/gc/gc_heap.cpp:1435-1462 | every white slot is dead afterwards and nothing else changes; the rebuilt lists hold exactly the dead slots; live bytes are conserved |
| OldGen.OldSpace.PreMark | src/gc/gc_heap.cpp:1342-1352 | every slot that is not dead turns white |
| Reachability.TraceComplete | src/gc/gc_heap.cpp:1420-1421 | an exhausted worklist holds exactly what the roots reach |
| Reachability.TracePush | src/gc/gc_heap.cpp:1119-1141 | queueing a successor of a scanned object keeps the worklist sound and duplicate-free |
| Reachability.ClosedContainsReach | include/gc/gc_heap.h:1376-1383 | a set closed under references contains everything reachable from it |
| GcHeap.Heap.Trace | src/gc/gc_heap.cpp:1420-1421 | the worklist loop ends, because each object is queued at most once, marks what is reachable, and meets objects in the order of the specified breadth-first trace |
| GcHeap.Heap.ScanPayload | src/gc/gc_heap.cpp:1119-1141 | scanning one payload, which has the size that its header says, queues each white object that one of its words names, once and in the order of the words; StoredHandles.RefersIff says which bytes name an object |
| TraceOrder.WordIsHandle | src/gc/gc_heap.cpp:1126-1128 | a word of a payload is a handle exactly if its four bytes, the lowest first, are those of the handle |
| StoredHandles.RefersIff | src/gc/gc_heap.cpp:1126-1133 | a payload names an object if and only if the four bytes of a live handle of the object, the lowest first, stand in it at a multiple of four |
| StoredHandles.ReachIffLedTo | src/gc/gc_heap.cpp:1119-1141 | an object is reached if and only if a chain of live handles leads to it, the first one a root, each stored in the object of the one before it |
| GcHeap.Heap.MajorGc | src/gc/gc_heap.cpp:1335-1482 | a slot is dead afterwards exactly if it was dead or the roots do not reach it through handles in payloads; survivors keep address, size and bytes; no handle dangles if and only if the roots reach every slot that has a handle; weak references are cleared exactly where the object is gone; StoredHandles.SurvivesIffLedTo says the same by the bytes of the payloads |
| StoredHandles.SurvivesIffLedTo | src/gc/gc_heap.cpp:1335-1462 | an old object survives a major collection if and only if such a chain through old objects leads to it from the roots |
| StoredHandles.YoungReachIffLedTo | src/gc/gc_heap.cpp:1222-1256 | the roots of a minor collection reach a young object if and only if such a chain through young objects leads to it |
| StoredHandles.RememberedIffStored | src/gc/gc_heap.cpp:1089-1113 | a remembered old object names a young one if and only if the bytes of a live handle of it stand in the old object |
| GcHeap.CollectedBySweep | src/gc/gc_heap.cpp:1419-1462 | marking followed by the sweep collects exactly the unreachable slots |
| GcHeap.AllHandlesRootsAreReached | src/gc/gc_heap.cpp:1375-1387 | with every live handle a root, a major collection leaves no handle dangling |
| GcHeap.Heap.SweepWeak | src/gc/gc_heap.cpp:1464-1480 | the loop clears exactly the weak references whose handle names no object any more |
| GcHeap.WeakKeptIffReached | src/gc/gc_heap.cpp:1464-1480 | a major collection keeps a weak reference to an old object if and only if the roots reach the object |
| GcHeap.WeakAfterMinorIff | src/gc/gc_heap.cpp:1147-1329 | after a minor collection with room the handle of a weak reference to a young object is live, at the new address, if and only if the object was moved |
| GcHeap.Heap.AllocWeak | src/gc/gc_heap.cpp:1671-1685 | the first entry not in use names the target; all others are unchanged, and so is the heap |
| GcHeap.Heap.FreeWeak | src/gc/gc_heap.cpp:1711-1715 | the entry reads as null and every other as before, for any index |
| GcHeap.Heap.AllocYoung | src/gc/gc_heap.cpp:544-571 | the bump allocation, of any size, returns a fresh zeroed young object behind a fresh handle and keeps the heap consistent; the heap stays collectable if and only if it was, the object has bytes or room for a pointer behind it, and no object in use ends where it starts right behind its header |
| GcHeap.Heap.AllocPinned | src/gc/gc_heap.cpp:936-955 | from any valid heap and for any size: an old slot that overlaps no live object, zeroed up to the requested size, with a payload of the size in its header, behind a fresh handle; the heap stays valid if and only if 32 bits hold the size and no live handle had the slot; no handle if and only if no dead slot, block or grant of the host serves, and then the heap is as before |
| GcHeap.Heap.Drop | src/gc/gc_heap.cpp:311-332 | the heap stays consistent if and only if the handle is out of range, pinned or live; a collectable heap stays collectable |
| GcHeap.Heap.Store | src/gc/gc_heap.cpp:961-982 | writing one byte of an object changes that byte only and keeps the heap consistent and collectable |
| GcHeap.Heap.MarkYoung | src/gc/gc_heap.cpp:1163-1256 | a young object is marked exactly if the roots reach it through young objects, and the young objects are queued in the order of the trace |
| TraceOrder.WithinTrace | src/gc/gc_heap.cpp:1163-1256 | a trace that looks into young objects only meets them in the same order, whatever old objects are on its worklist |
| TraceOrder.ListIsOrder | src/gc/gc_heap.cpp:1163-1256 | so the worklist of a minor collection, made from scanned roots of either generation and the pinned handles, holds the young objects in the order that handles and payloads alone determine |
| GcHeap.OrderIsReach | src/gc/gc_heap.cpp:1222-1256 | that order lists exactly the young objects that the roots reach through young objects, each once |
| GcHeap.HarmlessIff | src/gc/gc_heap.cpp:1062-1072 | the forwarding pointer of a young object stays in the nursery and meets no other object that a handle names if and only if its payload is not empty or nothing in use stands behind its header |
| GcHeap.Heap.DoEvacuate | src/gc/gc_heap.cpp:1023-1078 | one object moves: copy, handle, reverse map and forward table agree and the pointer is written over the old payload, or nothing changes when there is no room; the heap is intact if and only if nothing moved or, after the moves so far, the pointer meets no header still in use |
| Evacuation.EvacuateOne | src/gc/gc_heap.cpp:1023-1078 | moving one more object, with the pointer written over its old payload, keeps: handles follow their objects, copies hold the bytes, everything that did not move is as before |
| GcHeap.Heap.ScanRemembered | src/gc/gc_heap.cpp:1089-1113 | every young object that a remembered object names is evacuated or had no room |
| GcHeap.Heap.SweepYoung | src/gc/gc_heap.cpp:1281-1295 | exactly the handles of unreached young objects are freed |
| GcHeap.Heap.EvacuateNursery | src/gc/gc_heap.cpp:1147-1295 | which young objects survive and what becomes of every handle; as long as there is room the moves follow the order of the trace, and go beyond it only for what remembered objects name; a header in use is destroyed only by the object moved last; objects are lost only if the old generation could not spare what was needed |
| GcHeap.Heap.MinorGc | src/gc/gc_heap.cpp:1147-1329 | a header in use is destroyed if and only if some move in its turn was harmful, never in a collectable heap; otherwise: the nursery is empty; each handle follows its moved object, dies if it was not reached, or stays; copies hold the original bytes; old objects are untouched; every word of stack and registers that held a moved payload address holds the new one and no other word changes; without lost objects the heap is collectable again; a major collection is due exactly if the bytes in use reach the threshold |
| GcHeap.Heap.Collect | src/gc/gc_heap.cpp:1147-1329 | minor collection, then the major one if and only if nothing was lost and the live bytes reach the threshold: both results composed; no room if and only if objects were lost, which the spare memory explains; handles dangle if and only if the major collection does not reach all that they name; without remembered objects and with room for the order of the trace, a header in use is destroyed if and only if that order, known before the call, does harm |
| GcHeap.OrderDecides | src/gc/gc_heap.cpp:1258-1267 | of every collection, however it ends: without remembered objects and with room it destroys a header in use if and only if the order of the trace does harm; if that order does harm, a header is destroyed or objects are lost |
| GcHeap.Heap.Alloc | src/gc/gc_heap.cpp:521-588 | the nursery if it has room, else a whole collection and the nursery or the old generation: the heap afterwards is that of the collection with one new zeroed object behind a new handle; null if and only if after the collection the nursery has no room and no dead slot, block or grant of the host serves, and then the heap is that of the collection; an end that is not in order is that of the collection, with the heap it leaves; the header is cut if and only if 32 bits do not hold the size |
| GcHeap.ForwardWords | src/gc/gc_heap.cpp:901-934 | the in-place loop forwards exactly the words that are in the table |
| GcHeap.Heap.UpdateStackForwards | src/gc/gc_heap.cpp:901-934 | stack and registers after forwarding; stacks of 16 MB and more are skipped |
| GcHeap.WordFollowsHandle | src/gc/gc_heap.cpp:901-934 | a word that held the payload address of a handle that survives holds that handle's payload address after the collection; left alone it would if and only if the object did not move |
| GcHeap.ForwardPointerFits | src/gc/gc_heap.cpp:1062-1072 | the forwarding pointer fits in the slot it is written to if and only if the payload is not empty |
| HeapRuns.InvIsExact | include/gc/gc_heap.h:1230-1245 | in a consistent table the free list holds exactly the slots that are not live, once each, live handles have distinct addresses, and handle_for_ptr and deref invert each other |
| HeapRuns.KeptHandles | src/gc/gc_heap.cpp:1147-1329 | a collection that ends in order keeps the handle of an object exactly if it is old, the roots reach it through young objects or a remembered old object names it |
| HeapRuns.CollectRepresents | src/gc/gc_heap.cpp:1147-1482 | and the objects it keeps begin with the bytes they had |
| HeapRuns.Perform | src/gc/gc_heap.cpp:521-1482 | each operation changes the heap as specified, answers as the objects of the program say and leaves the heap with the objects after it; null only if no dead slot, block or grant of the host serves; loads, stores, barriers, pins, drops, words and weak references always end in order; any other end has its collection and the heap that it leads to: a header destroyed by the last move, objects lost for which the spare memory did not do, handles that dangle in the heap as it is, or a header that cannot hold its size; whether a collection without remembered objects and with room destroys a header is known before it |
| HeapRuns.RunHeap | src/gc/gc_heap.cpp:521-1482 | over every run of alloc, alloc_pinned, loads, stores, barriers, pins, drops, words, weak references and collections: each step is the specified one; loaded bytes are those stored, new objects are zeroed behind new handles, dropped and collected handles go and all others keep their bytes; the handle table is exact; a run that stops early meets an operation that is not legal, or one that leaves the heap that its collection leads to, for the reason that the heap before it gives |
| StoredHandles.StoredIsKept | src/gc/gc_heap.cpp:1147-1329 | a collection in order keeps, with its bytes, every object that the program gets to from a root by handles it stored in young objects |
| StoredHandles.StoredInRememberedIsKept | src/gc/gc_heap.cpp:1089-1113 | so it does with an object whose handle the program stored in a remembered old object |
| HeapReferences.CollectFollows | src/gc/gc_heap.cpp:901-934 | after a collection in order a register, or a word of a stack below 16 MB, that held the payload address of a kept object holds its new one; a word of a larger stack does if and only if the object did not move |
| HeapReferences.StepFollows | src/gc/gc_heap.cpp:521-1482 | the same for every operation of a run that does not write the word itself |
| HeapReferences.RunFollows | src/gc/gc_heap.cpp:521-1482 | over every run: while the program keeps an object and does not write the place, the word there is the payload address of that object, wherever collections move it |
| HeapReferences.RunKeepsName | include/gc/gc_heap.h:927-953 | over every run: while the program keeps an object, a weak reference to it names it until it is freed, and says so when asked |
| HeapReferences.NameLostHasACause | src/gc/gc_heap.cpp:1464-1480 | a weak reference that is not freed changes only to null, only in a collection, and only if its handle then names no object or was handed out anew |
| HeapRuns.CollectHarmful | src/gc/gc_heap.cpp:1062-1072 | when the j-th object in the order of the trace is the first with a harmful forwarding pointer, a minor collection makes exactly the moves up to it and its pointer lands on the header behind it or past the nursery, unless the old generation cannot spare the slots |
| HeapRuns.EmptyObjectRun | src/runtime/exec_instruction_gc.cpp:482-486 | alloc(0), alloc(4), minor_gc: the header of the second object is destroyed |
| HeapRuns.EmptyObjectLast | src/gc/gc_heap.cpp:1258-1267 | the same objects with the second root first: both survive |
| HeapRuns.EmptyObjectAlone | src/gc/gc_heap.cpp:1258-1267 | the second object dropped before: the first survives |
| HeapRuns.HugeObjectRun | src/gc/gc_heap.cpp:936-955 | alloc_pinned of 2^32 bytes succeeds and the header says 0 bytes |
| HeapRuns.ZeroThreshold | include/gc/gc_heap.h:1112-1123 | with threshold 0 every minor collection that ends asks for a major one |
| CollectorLimits.SurvivorsAreKept | src/gc/gc_heap.cpp:1147-1329 | what a minor collection moves, or loses for want of room, is exactly what the roots reach through young objects and what remembered old objects name |
| CollectorLimits.MinorKeepsReachableIff | src/gc/gc_heap.cpp:1270-1275 | under the write-barrier discipline a minor collection keeps all reachable young objects if and only if the objects named by remembered ones name nothing that is not kept |
| CollectorLimits.ChainReachesLast | src/gc/gc_heap.cpp:1270-1275 | an object named by an object that a remembered one names is reachable, and is not kept although the barrier is |
| CollectorLimits.GrandchildOfRememberedDies | src/gc/gc_heap.cpp:1270-1275 | a run with a kept barrier in which minor_gc frees the handle of a reachable young object |
| CollectorLimits.SweptSlotIsShared | src/gc/gc_heap.cpp:1446-1458 | an address that a live handle has, given to a new handle: two live handles share it and the reverse map forgets the first |
| CollectorLimits.PinAndSweep | src/gc/gc_heap.cpp:1335-1462 | alloc_pinned and major_gc without roots leave a live handle to a dead slot |
| CollectorLimits.SharedAfterSweep | src/gc/gc_heap.cpp:1446-1458 | alloc_pinned, major_gc without roots, alloc_pinned: two live handles with one address |
| CollectorLimits.WeakNamesAnother | include/gc/gc_heap.h:927-953 | alloc, alloc_weak, minor_gc without roots, alloc: the weak reference names the second object |
| WaitTables.KindHasNoEffect | include/gc/wait_table.h:190-194 | the bucket is the low 12 bits of the hashed handle, whatever the kind |
| WaitTables.WaitTable.Push | src/gc/wait_table.cpp:91-110 | the queue of one key grows at its end; every other queue is unchanged |
| WaitTables.WaitTable.PopOne | src/gc/wait_table.cpp:116-151 | the first waiter leaves its queue, or the sentinel if there is none; empty entries are unlinked |
| WaitTables.WaitTable.PopAll | src/gc/wait_table.cpp:157-183 | the whole queue in order; every other queue is unchanged |
| WaitTables.QueueUnlinked | src/gc/wait_table.cpp:132-146 | unlinking an entry from its chain empties that key's queue and no other |
| WaitTables.RunTable | src/gc/wait_table.cpp:91-183 | in every run the table wakes processes as one list in order of arrival would: each waiter once, first come first served among those of its key |
| Monitors.AcquireMatches | src/gc/gc_heap.cpp:1734-1768 | the packed word does what the lock does, if and only if the depth is not at its limit of 65535 |
| Monitors.ReleaseMatches | src/gc/gc_heap.cpp:1784-1813 | a release of the word is a release of the lock, for every caller |
| Monitors.RunHolds | src/gc/gc_heap.cpp:1734-1813 | over every run within the depth limit a process holds exactly its unmatched acquires |
| Monitors.MutualExclusion | include/gc/gc_heap.h:955-1033 | at most one process has unmatched acquires; the word is zero exactly if none has; the depth is the owner's count |
| Monitors.OwnerZeroIsNotFree | include/loader/oop_types.h:402-416 | process 0 holds a monitor whose owner field is 0 |
| Monitors.OwnerTellsIff | include/gc/gc_heap.h:955-1033 | after every run within the depth limit the owner field is 0 exactly for a free monitor, if and only if process 0 has no unmatched acquires |
| Monitors.TakesWaiterIff | src/gc/gc_heap.cpp:1784-1813 | after every run within the depth limit a release takes out a waiter if and only if it is the holder's last or process 0 releases a free monitor |
| Monitors.MonitorTable.TryAcquire | src/gc/gc_heap.cpp:1734-1768 | succeeds exactly if the monitor is free or owned by the caller; other monitors are unchanged |
| Monitors.MonitorTable.Release | src/gc/gc_heap.cpp:1784-1813 | the new word, and exactly when which waiter is handed back |
| Monitors.ReleaseOfFreeMonitor | src/gc/gc_heap.cpp:1793-1812 | process 0 releases a free monitor and a waiter is popped |
| Monitors.RunMonitor | src/gc/gc_heap.cpp:1734-1813 | a run of acquires, releases and waits on the table follows the word of that run, answers each release as the queue of waiters says, ends with the queue of the run, and leaves other monitors and queues alone |
| Monitors.WokenInOrder | src/gc/gc_heap.cpp:1784-1848 | those who waited and came are those woken, in order, and those still waiting |
| RawAllocator.ClassFor | include/gc/raw_allocator.h:430-435 | the smallest class that holds the size, none above 1024 |
| RawAllocator.UpperBound | src/gc/raw_allocator.cpp:186-188 | the binary search splits the sorted chunks at the pointer |
| RawAllocator.FindChunk | src/gc/raw_allocator.cpp:183-191 | finds the one chunk that holds a pointer, if and only if one does |
| RawAllocator.OneClass | include/gc/raw_allocator.h:395-415 | a pointer is a slot of one class at most |
| RawAllocator.BlocksApart | src/gc/raw_allocator.cpp:68-161 | two outstanding blocks, slab or large, never overlap |
| RawAllocator.PopKeepsInv | src/gc/raw_allocator.cpp:100-105 | taking the head of a free list keeps: each slot is outstanding or listed, never both, once |
| RawAllocator.PushKeepsInvIff | src/gc/raw_allocator.cpp:191-202 | pushing a pointer on the list of its chunk keeps that if and only if the pointer was outstanding |
| RawAllocator.InsertSorted | src/gc/raw_allocator.cpp:372-379 | a fresh chunk inserted at its upper bound keeps the vector sorted and disjoint |
| RawAllocator.CutHas | src/gc/raw_allocator.cpp:382-389 | cutting a chunk lists exactly its slots |
| RawAllocator.GrowKeepsInv | src/gc/raw_allocator.cpp:358-391 | a new chunk with all its slots on the free list keeps the allocator in order |
| RawAllocator.Allocator.Grow | src/gc/raw_allocator.cpp:358-391 | afterwards the list of the class is not empty, or the host gave nothing and nothing changed |
| RawAllocator.Allocator.Alloc | src/gc/raw_allocator.cpp:68-161 | a zeroed block of at least the size asked for, distinct from all outstanding ones, of the class size or the size itself; 0 exactly for size 0 or without memory; the head of the list when there is one; the live bytes are their sum |
| RawAllocator.Allocator.Free | src/gc/raw_allocator.cpp:177-229 | accepted exactly if inside a slab or a large block; a pointer in a slab becomes the head of its list; the allocator stays in order if and only if the pointer was outstanding or not in a slab |
| RawAllocator.Allocator.Realloc | src/gc/raw_allocator.cpp:246-312 | all cases: size 0 frees, a large block moves with its common prefix and zeros, anything else is a plain allocation |
| RawAllocator.Allocator.ReallocOutstanding | src/gc/raw_allocator.cpp:246-312 | the prefix of an outstanding block, up to the size granted, is kept if and only if it is large or was all zeros; it is released if and only if it is large |
| RawAllocator.DoubleFree | src/gc/raw_allocator.cpp:177-229 | for every outstanding slab block: the second free is accepted, and the next two requests of its size get its pointer |
| RawAllocator.DoubleFreeRun | src/gc/raw_allocator.cpp:68-229 | alloc, free, free, alloc, alloc from an empty allocator: one pointer twice |
| RawAllocator.ByteLostByRealloc | src/gc/raw_allocator.cpp:246-266 | alloc, store a byte other than 0, realloc, for all slab sizes: the new block has 0 there, the old one keeps the byte |
| RawRuns.Perform | src/gc/raw_allocator.cpp:68-312 | one such operation, from any allocator in order |
| RawRuns.RunAllocator | src/gc/raw_allocator.cpp:68-312 | over every run of alloc, free, realloc, loads and stores with legal frees: new blocks are zeroed, large enough and new, bytes are those stored, large blocks keep their prefix when they move, a free is accepted exactly for an outstanding block, and no two blocks ever overlap |
| Tlb.IndicesArePage | include/arena/TLB.h:48-51 | the three table indices agree exactly for addresses of one page |
| Tlb.LazyHybridTLB.Translate | src/arena/TLB.cpp:163-201 | the page gets the target and the lookup of every other page is unchanged |
| Tlb.LazyHybridTLB.GetEntry | src/arena/TLB.cpp:232-255 | the walk with its level checks finds exactly what the path through the tree holds |
| Tlb.LazyHybridTLB.ClearEntry | src/arena/TLB.cpp:212-216 | the page then maps to virtual address 0 and no other page changes |
| VirtualMemory.Memory.HostPage | src/arena/VirtualMemory.cpp:185-220 | cache, tree or a fresh page: the same host pointer as the tree, no byte of memory changes, and the cache is coherent |
| VirtualMemory.Memory.ReadBytes | src/arena/VirtualMemory.cpp:179-237 | with any cache: the bytes of the cached page up to its end if the access starts on it, then those of flat memory, across pages and around the end of the address space; with a coherent cache all are flat memory; memory is unchanged |
| VirtualMemory.Memory.WriteBytes | src/arena/VirtualMemory.cpp:243-296 | with any cache: bytes that start on the cached page go there, the others change flat memory exactly at their addresses, up to the first page that refuses; with a coherent cache all go to flat memory |
| VirtualMemory.Memory.SeenIsFlat | src/arena/VirtualMemory.cpp:185-220 | what an access sees through a coherent cache is flat memory |
| VirtualMemory.Memory.ReadU64Fast | include/arena/VirtualMemory.h:119-129 | a hit answers from the cached pointer, a miss as a block read does; with a coherent cache every answer is the little-endian word of flat memory |
| VirtualMemory.Memory.WriteU64Fast | include/arena/VirtualMemory.h:105-114 | a hit writes the eight bytes through the cached pointer, whatever the tree says, a miss as a block write does; with a coherent cache exactly the eight bytes of the word change in flat memory |
| VirtualMemory.PatchUnmapped | include/arena/VirtualMemory.h:105-114 | a write to a page that no address is mapped to leaves flat memory unchanged |
| VirtualMemory.Memory.Map | src/arena/VirtualMemory.cpp:37-58 | a byte reads as zero if map reaches its page and as before if not, in particular if its page holds no byte of the range; the pages of the range are zero if and only if the rounded end fits 64 bits or the rest was zero; the cache stays coherent if and only if its page is not mapped over |
| VirtualMemory.TouchesIff | src/arena/VirtualMemory.cpp:38-40 | the pages of a range, rounded outwards, are those that hold a byte of it, and for an empty range inside a page that page |
| VirtualMemory.MapRange | src/arena/VirtualMemory.cpp:38-40 | map reaches exactly those pages; when the rounded end leaves 64 bits, at most the page that the range begins in, and that if and only if the range comes round to it again |
| VirtualMemory.RangeZeroIff | src/arena/VirtualMemory.cpp:37-58 | that condition, for every two memories that a map connects |
| VirtualMemory.WordRoundTrip | include/arena/VirtualMemory.h:105-129 | a stored word is read back |
| MemoryRuns.Execute | include/arena/VirtualMemory.h:73-129 | in every run of map, reads and writes in which no map covers the page accessed last or reaches the end of the address space, the answers are those of one flat memory, whose map zeroes the pages of the range |
| MemoryRuns.ReadAfterMap | src/arena/VirtualMemory.cpp:37-58 | after any map over the cached page, a fast read there returns the word from before the map while memory holds zero |
| MemoryRuns.WriteAfterMap | include/arena/VirtualMemory.h:105-114 | after any map over the cached page a fast write there leaves the mapped memory as it is |
| MemoryRuns.ReadBlockAfterMap | src/arena/VirtualMemory.cpp:179-237 | after any map over the cached page a block read inside it returns the bytes from before the map while memory holds zeros |
| MemoryRuns.WriteBlockAfterMap | src/arena/VirtualMemory.cpp:243-296 | and a block write inside it leaves the mapped memory as it is |
| MemoryRuns.StaleRun | src/arena/VirtualMemory.cpp:37-58 | a run of three calls that answers 1 where flat memory holds 0 |
| MemoryRuns.LastPageRun | src/arena/VirtualMemory.cpp:37-58 | write, map of the last page, read: 1 where flat memory holds 0 |
| Imports.TryPaths | include/emmit/parser_to_bytecode.h:1131-1145 | the loop finds the resolved path |
| Imports.ResolvedInOrder | include/emmit/parser_to_bytecode.h:1109-1112 | own directory, then search paths, then the name as it is: each is used only if nothing before it holds the file |
| Imports.ResolveImports | include/emmit/parser_to_bytecode.h:1119-1193 | terminates on every import graph; result, imported set and error are those of the depth-first expansion |
| Imports.NoImportsLeft | include/emmit/parser_to_bytecode.h:1119-1193 | on success no import node is left |
| Imports.EachFileOnce | include/emmit/parser_to_bytecode.h:1156-1159 | imported grows by exactly the files expanded, each once |
| Imports.OwnNodesOnce | include/emmit/parser_to_bytecode.h:1180-1188 | the result holds the own nodes of the root and of each file expanded, once each |
| Imports.FirstVisitExpands | include/emmit/parser_to_bytecode.h:1156-1159 | in the order of the walk an import is expanded exactly where its file is met first |
| Imports.ExpansionMirrorsFiles | include/emmit/parser_to_bytecode.h:1119-1193 | each expanded file appears as its own nodes in order, its imports resolved from its own directory |
| Imports.ImportedIsReached | include/emmit/parser_to_bytecode.h:1119-1193 | imported grows by exactly the files that a chain of imports reaches without passing through a file imported before |
| Fnv.MixInjective | main.cpp:1412-1415 | one FNV-1a step is injective in the state and in the byte |
| Fnv.AbsorbInjective | main.cpp:1406-1443 | reading a text is a bijection of states |
| Fnv.OneByteChangesTheHash | main.cpp:1406-1443 | texts of one length that differ in exactly one byte have different hashes |
| Fnv.HashOfA | main.cpp:1406-1415 | the hash of the text "a" is the one published with FNV-1a |
| MacroCache.AnnotationStartIsMaximal | main.cpp:1276-1291 | the start takes in exactly the annotation lines directly above |
| MacroCache.BodyEndsAtFirstBalance | main.cpp:1295-1316 | a body ends at the first point outside strings and comments where its braces balance, or with the text |
| MacroText.StringEndIsFirst | main.cpp:1299-1308 | a string ends at the first quote with an even number of backslashes directly before it, or with the text |
| MacroText.BodyEndsFrom | main.cpp:1295-1316 | read character by character: a body ends behind the brace that closes its last open one, counting braces outside strings and line comments only, or with the text, one past it inside a string |
| MacroText.RangeEnds | main.cpp:1292-1318 | so does the range of every macro, from its first open brace on |
| MacroText.EndIsUnique | main.cpp:1295-1316 | there is one such end |
| MacroText.AnnotationLineIff | main.cpp:1279-1285 | a line is an annotation if and only if its first character that is neither a blank nor a tab is an at sign |
| MacroText.EscapedQuote | main.cpp:1267-1443 | an example: a body with an escaped quote and a brace in a string is one range, with its name and the bytes that its key hashes |
| MacroCache.MacrosInOrder | main.cpp:1267-1321 | each range starts a line, holds its hit and its open brace and ends at most one past the text; ends strictly increase |
| MacroCache.FindMacroRanges | main.cpp:1267-1321 | the scanner ends and returns the ranges of the specified macros |
| MacroCache.FindMacroRangesWithNames | main.cpp:1331-1404 | the named scanner returns the same ranges, with the identifier before the parenthesis as name |
| MacroCache.ScanBody | main.cpp:1295-1316 | the nested loops find the end of the body |
| MacroCache.CacheKey | main.cpp:1406-1443 | the key is the hash of version, path, separator and the ranges, or of the whole source without macros |
| MacroKeys.TextsAppend | main.cpp:1267-1321 | scanning distributes over self-contained pieces of a source |
| MacroKeys.EditsOutsideMacrosKeepTheKey | main.cpp:1418-1441 | replacing code without macros between self-contained pieces keeps the key |
| MacroKeys.KeyOfTexts | main.cpp:1418-1441 | with macros the key depends on the path and the texts of the ranges only |
| MacroKeys.EditInsideMacroChangesTheKey | main.cpp:1429-1441 | changing one byte of one macro text, with as many ranges as before and the other texts unchanged, changes the key |
| MacroKeys.StreamDeterminesMacros | main.cpp:1409-1441 | for texts without separator bytes, two inputs are hashed as the same bytes if and only if path and macros agree |
| Mailboxes.Mailbox.Push | src/distrib/mailbox.cpp:26-36 | taken exactly if the queue with it is within both limits; the byte count stays the sum of the queue |
| Mailboxes.Mailbox.TryPop | src/distrib/mailbox.cpp:38-50 | the first message; empty data exactly if the mailbox or that message is empty |
| Mailboxes.FirstInFirstOut | include/distrib/mailbox.h:63-123 | what was taken in is what was handed out followed by what is left |
| Mailboxes.RunMailbox | src/distrib/mailbox.cpp:20-50 | every run behaves as the bounded queue and ends within both limits |
| Messages.Sender.RetryPass | src/distrib/dist_runtime.cpp:1143-1179 | each entry younger than two seconds stays as it is and is not sent; an older one with fewer than five retries is sent again and stays with the new time and one retry more, if the session is active; every other one leaves the table |
| Messages.RetriedIs | src/distrib/dist_runtime.cpp:1143-1179 | the same of the protocol's retry step, with what counts as expired and as cut off |
| Messages.Receiver.HandleMsgsend | src/distrib/dist_runtime.cpp:989-1024 | the message is taken exactly if the process lives and its mailbox has room, and the acknowledgement says so; a mailbox is created for a living process; the mailboxes stay distinct objects within their limits |
| Messages.Receiver.Receive | src/distrib/mailbox.cpp:38-50 | the first message of a process leaves its mailbox and no other mailbox changes |
| Delivery.StepKeepsInv | src/distrib/dist_runtime.cpp:552-1180 | every step of the protocol keeps the invariant while at most 2^32 numbers are drawn |
| Delivery.RunKeepsInv | src/distrib/dist_runtime.cpp:552-1180 | so does every run, from any state that has it |
| Delivery.AtLeastOnce | include/distrib/dist_runtime.h:97-111 | in every such run an OK acknowledgement means the message was pushed; an unacknowledged one stays pending as it was sent until five retries or the end of the session; mailboxes stay within their limits |
| Delivery.SentStays | include/distrib/dist_runtime.h:347-354 | a message keeps its number and its bytes for the rest of the run |
| Delivery.LossHasACause | src/distrib/dist_runtime.cpp:1135-1180 | a message given up without being pushed was refused, transmitted six times or cut off |
| Delivery.TransmittedWhenDue | src/distrib/dist_runtime.cpp:1135-1180 | over every run without an answer: a pending message is transmitted once for each pass that finds it two seconds old, pending after up to five of them, and given up by the sixth after six transmissions |
| Delivery.TransmittedOftenEnough | include/distrib/dist_runtime.h:97-111 | n passes at least two seconds apart transmit an unanswered message min(n, 5) + 1 times |
| Delivery.RefusalLosesTheMessage | src/distrib/dist_runtime.cpp:1026-1030 | one refused arrival and the message is gone after a single transmission |
| Delivery.WrapBreaksDelivery | include/distrib/vdp_session.h:267-268 | with 2^32 + 1 numbers a late acknowledgement counts for another message, which is never pushed |
| Sessions.Link.Perform | src/distrib/dist_runtime.cpp:552-1180 | the objects of both nodes carry out a step exactly if the protocol allows it, and then are in the state that the protocol reaches |
| Sessions.Link.Arrive | src/distrib/dist_runtime.cpp:989-1024 | handling a packet is the arrival step of the protocol |
| Sessions.Link.Retry | src/distrib/dist_runtime.cpp:1135-1180 | a pass of the retry loop is the retry step of the protocol |
| Sessions.LinkDelivers | include/distrib/dist_runtime.h:97-111 | objects in a state that the protocol reaches with at most 2^32 numbers deliver at least once, and their mailboxes count their bytes and keep both limits |
| Sessions.Drive | src/distrib/dist_runtime.cpp:552-1180 | over every sequence of steps the objects follow the protocol to the first step it does not allow, and deliver at least once |
| Adler.NoOverflow | src/distrib/dirty_tracker.cpp:82-95 | 5552 bytes of any value leave both sums below 2^32 |
| Adler.SumsAre | src/distrib/dirty_tracker.cpp:82-95 | reducing after every byte gives the remainders of the plain sums |
| Adler.Adler32 | src/distrib/dirty_tracker.cpp:77-102 | reducing once per 5552 bytes gives the checksum of section 8.2 of RFC 1950 |
| Adler.ChecksumIs | src/distrib/dirty_tracker.cpp:101-101 | its upper half is the length and all bytes weighted by their distance from the end, its lower half one and all bytes, both modulo 65521 |
| DirtyTracker.PagesCoverIff | src/distrib/dirty_tracker.cpp:30-38 | the pages cover the region if and only if rounding its size up fits 64 bits |
| DirtyTracker.Tracker.ReadPage | include/distrib/dirty_tracker.h:184-195 | the bytes of the page inside the region and zeros after it |
| DirtyTracker.Tracker.Detect | include/distrib/dirty_tracker.h:179-221 | the pages found and the refreshed baselines |
| DirtyTracker.FoundExactly | include/distrib/dirty_tracker.h:198-218 | exactly the pages whose Adler-32 and BLAKE2s both differ, in page order, with their new hashes |
| DirtyTracker.FoundAgain | include/distrib/dirty_tracker.h:210-216 | a second detection finds the same |
| DirtyTracker.NothingAfterUpdate | src/distrib/dirty_tracker.cpp:51-60 | once the reported hashes are stored, unchanged memory gives nothing |
| DirtyTracker.Tracker.UpdateBaseline | src/distrib/dirty_tracker.cpp:51-60 | the reported hashes are stored, unknown pages are skipped |
| DirtyTracker.DetectAndStore | include/distrib/dirty_tracker.h:66-79 | detect, detect, store, detect: the same pages, then none |
| Basics.ValueOfBytes | include/emmit/bytewriter.h:54-110 | the n low bytes of a value carry it modulo 256^n |
| Basics.ByteOfValue | include/emmit/bytewriter.h:54-110 | byte k is the k-th digit to the base 256, the lowest first |
| Basics.BytesOfValue | include/emmit/bytereader.h:129-205 | bytes come back from their value |
| ByteStreams.ByteWriter.Emit40 | include/emmit/bytewriter.h:107-113 | the five low bytes in order |
| ByteStreams.ByteWriter.WriteAt | include/emmit/bytewriter.h:142-170 | exactly the bytes of the patch change; the range check fails to stop positions whose end wraps |
| ByteStreams.ByteWriter.Write8At | include/emmit/bytewriter.h:136-140 | one byte changes, if and only if the position is in range |
| ByteStreams.ByteReader.ReadField | include/emmit/bytereader.h:129-205 | the little-endian value if the bytes are there, and no move otherwise |
| ByteStreams.ByteReader.ReadBytes | include/emmit/bytereader.h:214-220 | the block if it is there, and no move otherwise |
| ByteStreams.ByteReader.Skip | include/emmit/bytereader.h:228-231 | stays inside the buffer for every size; goes forward if and only if the sum fits 64 bits |
| ByteStreams.ByteReader.Pop | include/emmit/bytereader.h:278-284 | restores the last saved offset |
| ByteStreams.EncodedFields | include/emmit/bytewriter.h:54-106 | the bytes of each field, the lowest first, as many as the field is wide |
| ByteStreams.RoundTrip | include/emmit/bytewriter.h:54-113 | any sequence of items written and read by the matching reads comes back, 40-bit fields modulo 2^40, and ends at the end of the buffer |
| Sections.AlignUpRounds | include/emmit/struct_context.h:70-72 | without overflow the result is aligned, not below the value, by less than the alignment |
| Sections.Placed | include/emmit/struct_context.h:288-300 | a section starts exactly at the base it is given, whatever the alignment asked for |
| Sections.PlacedEnds | include/emmit/struct_context.h:288-300 | the end of a placed section is aligned and not below its real end |
| Sections.OneSection | include/emmit/struct_context.h:394-407 | an address of the space lies in exactly one section |
| Sections.SizeOfAll | include/emmit/struct_context.h:417-423 | sections listed once each have the size of the space |
| Sections.LaidOutIff | include/emmit/struct_context.h:394-407 | sections are contiguous if and only if no size lies between two listings of a name |
| Sections.Space.ComputeRanges | include/emmit/struct_context.h:394-407 | sorted by start, each section placed where it is listed last, ends aligned; contiguous from the base if and only if no size lies between two listings of a name; with distinct names over the size of the space |
| Sections.AddedTwice | include/emmit/struct_context.h:394-407 | a section added twice starts one size above the base and counts twice |
| Config.LinesOfUnlines | src/vex_config.rs:365-366 | joined lines are read back as they were |
| Config.ShowRoundTrip | src/vex_config.rs:428-432 | a number printed in decimal parses to itself |
| Config.ListReadBack | src/vex_config.rs:589-591 | a list of names without commas and blank ends comes back with a quote before its first name and one after its last, so never as it was |
| Config.Parse | src/vex_config.rs:361-402 | the loop over the lines computes the specified fold |
| ConfigLines.TrimIs | src/vex_config.rs:366-382 | trimming finds what stands between the white ends of a text |
| ConfigLines.AsciiWhite | src/vex_config.rs:366-366 | blanks, tabs and line ends are white, and no visible ASCII character is |
| ConfigLines.EveryLineHasAForm | src/vex_config.rs:365-398 | every line is blank, a comment, a header, an assignment or none of these |
| ConfigLines.LineHasEffect | src/vex_config.rs:365-398 | a header changes the section; an assignment, whatever blanks stand in it, sets the field of its trimmed key in the section, which is general before any header, to the value of the trimmed text behind the first equals sign; all other lines, unknown keys and unknown sections change nothing |
| ConfigLines.ParseText | src/vex_config.rs:361-402 | for every text each field has the value of the last line that assigns to it, or its default |
| ConfigLines.LinesCons | src/vex_config.rs:365-365 | the text up to a line break is a line, without a carriage return at its end |
| ConfigLines.LookupFinds | src/vex_config.rs:384-396 | a key that is known is that of a field of the section |
| ConfigLines.DigitsGrow | src/vex_config.rs:428-432 | a digit at the end of a number counts once and the digits before it ten times |
| ConfigLines.NumberIs | src/vex_config.rs:428-432 | digits within the type are the number, with or without a plus sign; anything else gives the fallback of the field |
| ConfigLines.FlagIs | src/vex_config.rs:418-420 | true and false are flags, anything else gives the fallback |
| ConfigLines.ListIs | src/vex_config.rs:463-468 | a list is what stands between commas, trimmed, without what is blank |
| ConfigRoundTrip.PrintedField | src/vex_config.rs:545-632 | the text that is printed for a section with one number |
| ConfigRoundTrip.TomlRoundTrip | src/vex_config.rs:545-632 | for every conforming configuration what is printed is read back, and every other field has its default |
| ConfigRoundTrip.FieldRoundTrip | src/vex_config.rs:361-632 | numbers and flags come back unchanged, a text comes back wrapped in one pair of quotes, a list of clean names with a quote at either end |
| ConfigRoundTrip.VexRoundTrip | src/vex_config.rs:545-632 | the same for each field of the program's own table |
| ConfigRoundTrip.EmptyListIsLost | src/vex_config.rs:589-591 | an empty list comes back as the default list |

## Left out

- PtrHandleMap.RunTable: inserted keys are neither null nor the address 1, and the address 1 is not erased; they mark empty and erased buckets.
- Handles.RunKeepsInv: runs without a double drop, at unused addresses and with fewer than 2^31 handles; Handles.ReleasePreservesIff and Handles.NewPreservesIff show why the first two are needed.
- GcHeap.Heap.MinorGc: remembered handles are within the table, which the code does not check; what the code does after a header in use was destroyed is not modelled.
- GcHeap.Heap.Collect: the model stops where a header in use was destroyed, room ran out or a handle dangles; the outcome says which, and after the second no major collection is run.
- GcHeap.Heap.AllocPinned: sizes so close to 2^64 that the total wraps are not modelled.
- GcHeap.Heap.AllocWeak: fewer than 2^32 entries, so that an index does not wrap.
- HeapRuns.RunHeap: ends at a double drop, whose effect is Handles.DoubleDropAliases, and at a collection or allocation that did not end in order. That a collection keeps no other handles is stated while only old handles are remembered.
- HeapRuns.KeptHandles: exact while only old handles are remembered, as write_barrier asks; a remembered young handle can keep more, in the order in which a hash set is walked.
- RawAllocator.DoubleFree: follows the two allocations after the double free; the block's own link is then zero, so the rest of the list is lost in the code and kept in the model.
- RawAllocator.Allocator.Free: a pointer into the middle of a block also overwrites eight of its bytes with a list link; memory is modelled block by block, so only the broken lists are stated.
- MemoryRuns.Execute: runs contain no unmap; after it the cached pointer would refer to freed memory.
- Mailboxes.Mailbox.Push: the sum of bytes is unbounded; message sizes near 2^64 are not modelled.
- Sections.Space.ComputeRanges: for sums within 64 bits; sections with equal starts keep their order, which std::sort does not promise.
- DirtyTracker.Tracker.Detect: BLAKE2s is a parameter, not computed.
- The conservative stack scan with its filters and the precise walk of JIT frames: the roots they find are parameters.
- Shared handles and the shared heap: handles are those of one process, fewer than 2^31.
- Collector statistics, logging and the debug environment variables: they influence nothing that is modelled.
- Interleaving inside a monitor operation or a bucket lock: each operation is one step.
- Sessions, the handshake, TLS, discovery and the local delivery path of msgsend: one session is modelled from the packet on.
- Files, lexing and parsing in the import expansion: a table from paths to parsed files is a parameter.
- The manifest that compares macros one by one, and everything else that main.cpp does with the cache.
- Host permissions of pages, unmap, and the memcpy and memset helpers of the virtual memory.
- free_all of the raw allocator and the statistics it keeps.
- Fields that the configuration printer does not write (breakpoints, log rotation), and get and set by name.
- Relocations, labels and symbol tables of the assembler; disassembler, shell, compiler back ends and command line: they would add only easier members.
