# Verified models of the extC memory runtime and region checker

This project models four parts of the repository in Dafny and proves what keeps them correct.

**The pool runtime** that the compiler emits into every program (`examples/tour-plots.c`).
`PoolState`, `PoolSurgery`, `PoolBirth` and `PoolRegistry` are the registry: a table of pools threaded
on two intrusive chains at once (the chain of the place a pool was born in, and its parent's list of
children), a free list, the stack of places, generations, and the memory blocks each pool owns; `PoolLife`
says how long a container's blocks are there.
`DynState` and `DynTable` are the handles of `dyn` values on top of it. `SlotMapState` and `SlotMap`
are the slot map with generational handles whose free list hides in the same packed word as the dense
index. `IntText`, `IntReader`, `IntWriter` and `TextBuffer` are the buffered integer reader and the two
integer printers.

**Collection of one region at a time** (`prototype-reclaim/`). `HeapState`, `Marking`, `RegionState`,
`RegionRun` and `RegionHeap` are the block heap of `sim.c`, with mark epochs, an explicit mark stack and
one in-edge set per region; `RegionRun` says what each operation does to the heap and what whole runs of
them keep, and `RegionHeap` shows that the code does it. `Arena` is the arena of the same file.
`BitWord`, `SlabState`, `SlabHeap`, `HolderState` and `HolderExact` are the slab allocator of
`slab_final.c`: its bitmaps are 64-bit words, `BitWord` says which sets of positions they stand for, and
holder counts stick at their top. `HolderState` says when a count is never too low, `HolderExact` when it
is the number of holders.

**The static region checker** (`proofs/*.py`). The scripts try small finite spaces; `RegionProgram`,
`PathSensitivity`, `PointerFlow`, `Inference`, `ForcedTwin`, `ForcedLoss` and `ShownChecks` state the same
claims for every number of cells, every chain of regions and every nesting of branches, and prove them.

How the parts fit together: state that the C code changes in place is a class, whose methods are proved
against a function or relation on its state; the invariants and the main results are lemmas about those
states. A program's operations and the analyses over them are datatypes and functions, and the Python
loops are methods that compute those functions. `Chains`, `Counting` and `Wrappers` are shared helpers.

Where the code and its comments differ, the model follows the code:

- Growing the pool table puts only its first new slot to use, so live pools and free slots together
  number one per growth while the table doubles (`PoolBirth.GrowthWastesSlots`).
- The byte that makes a pool an object table is not cleared when the slot is reused, so a pool is a plain
  one exactly if its slot was never an object table's (`PoolRegistry.Registry.New`); one that is not
  refuses to move or give back its blocks (`PoolRegistry.NewTakeGive`, `PoolRegistry.TableSlotReused`).
- `extc_dyn_put` enlarges its table of places once per call, which is not enough exactly if the place is
  beyond the enlarged table (`DynTable.DynTable.Put`), as for the first value 65 places deep
  (`DynTable.TooDeepForFirstPut`). Its entry for a place can name a table of another place that got the slot
  since, and the value then lands there (`DynTable.CachedTableOfAnotherZone`).
- `insert` of the slot map is the only operation that looks at the generation of the map's pool. The others
  read the map's own blocks exactly as long as that pool lives, a reset included
  (`SlotMap.ResetUnderMap`), and afterwards blocks that nobody or somebody else owns, unless the handle is
  refused before (`SlotMap.SlotMap.Lookup`, `SlotMap.DroppedUnderMap`).
- `forced_twin` builds a twin exactly when the region of the rejecting store's holder is still alive
  (`ForcedTwin.TwinExistsIff`); for well-scoped programs that is every rejection, and for others it can miss a
  twin (`ForcedLoss.DeadHolderHasNoTwin`), although every rejected program has one
  (`ForcedLoss.RejectedIffUnsafeTwin`).
- `solve` and `model_accepts` are proved to decide the best placement for choices without gaps
  (`Inference.ModelInferred`); with gaps they can give one nobody may use (`Inference.GapsDefeatInference`).
- A block handed over by `extc_promote` keeps its region number. The next sweep of the arena it went to
  keeps it exactly if that region's own roots or in-edge set led to it through blocks of that region
  (`RegionHeap.RegionHeap.PromoteThenSweep`); a block that a root of another region holds can be freed
  (`RegionHeap.PromotedBlockIsLost`).
- `init_ref` does not look at saturation: after 65535 references one more makes the count zero
  (`HolderState.StuckCountWraps`). Counts stay sound exactly if no first reference is written to an object
  whose count has stuck and no sweep frees an object still referred to (`HolderState.RunSoundIff`).
- `r2_alloc` hands out slot -1 for requests of more than half a slab (`SlabHeap.Heap.Alloc`).
- The loop `while cap < need` of `string$string_append` goes on for ever exactly if the string's pool is
  gone and there is something to append (`TextBuffer.DivergesIff`, `TextBuffer.ByteString.Append`).

## Model

| member | source | states |
|---|---|---|
| PoolRegistry.Registry.Drop | examples/tour-plots.c:587-609 | Terminates; kills exactly the pool and everything nested under it, releases their blocks, and keeps both chains, the counters and the byte totals right; does nothing for a dead or foreign id. |
| PoolRegistry.Registry.DropChildren | examples/tour-plots.c:590-595 | After the loop of recursive drops exactly the trees that hung below the pool are gone, the pool is alive and its child list empty. |
| PoolRegistry.Registry.Detach | examples/tour-plots.c:596-608 | Unlinking a childless pool from its parent's list and its place's chain and freeing its slot kills exactly this pool. |
| PoolRegistry.Registry.UnlinkZone | examples/tour-plots.c:576-586 | The walk along the place's chain finds the pool and redirects exactly the one link that named it. |
| PoolRegistry.Registry.ZoneLeaveTo | examples/tour-plots.c:713-724 | Pops to the mark and kills exactly the pools born in the places left and all pools nested under those; nothing when the mark is above the top. |
| PoolRegistry.Registry.DropZone | examples/tour-plots.c:715-721 | The walk along a chain whose pools the drops take away gets to its end: the place is empty, and only pools the whole leave condemns are gone. |
| PoolRegistry.Registry.LeaveTop | examples/tour-plots.c:714-723 | One round empties the top place and pops it, killing only pools the whole leave condemns. |
| PoolRegistry.Registry.Reset | examples/tour-plots.c:694-709 | The pool stays, its nested pools go, and its generation rises so that no handle of before validates. |
| PoolRegistry.Registry.ZoneEnter | examples/tour-plots.c:543-560 | A new empty place on the stack; its colour is never zero and follows that of the place that had this index last in a cycle of seven. |
| PoolRegistry.Registry.NewAt | examples/tour-plots.c:627-671 | -1 exactly for a place not on the stack; otherwise the new pool is the youngest, heads its place's and its parent's chain, has the place's colour, a new generation and no blocks. |
| PoolRegistry.Registry.NewTable | examples/tour-plots.c:678-682 | The same for an object table: its kind byte is set, and its slot is one of those that have been object tables from then on. |
| PoolRegistry.Registry.Take | examples/tour-plots.c:734-748 | A live pool gains one block at its front and the bytes are counted; a dead one gets nothing. |
| PoolRegistry.Registry.Give | examples/tour-plots.c:776-797 | Traps exactly for object tables; otherwise gives back exactly the named block if the pool owns it, and says whether it did. |
| PoolRegistry.Registry.Resize | examples/tour-plots.c:822-849 | Traps exactly for object tables; otherwise replaces exactly the named block if the pool owns it and adjusts the totals. |
| PoolRegistry.Registry.ColorsAgree | examples/tour-plots.c:801-811 | Every live pool's place is on the stack and its birth colour is the colour of that place. |
| PoolRegistry.AllDoomedGone | examples/tour-plots.c:713-724 | Once the stack is back at the mark, the pools that are gone are exactly those under a pool born at or above it. |
| PoolRegistry.TreeIsChildTrees | examples/tour-plots.c:587-595 | A pool's descendants are itself and the descendants of its children, so the recursion of a drop covers them. |
| PoolState.UnderIsYounger | examples/tour-plots.c:610-626 | Whatever is nested under a pool was created after it. |
| PoolState.DroppedIsPast | examples/tour-plots.c:587-653 | Once a pool is gone, whatever the registry does, its slot never lives again in the generation it had. |
| PoolLife.LifeGoesOn | examples/tour-plots.c:543-748 | Whatever the registry does, a pool's life ends exactly with the step that kills it and never begins again in its slot. |
| PoolLife.BlocksStay | examples/tour-plots.c:543-849 | As long as a pool lives it keeps a block, in its size, whatever is made, dropped, reset, entered, taken or given back besides. |
| PoolLife.HitFrees | examples/tour-plots.c:561-609 | Right after a pool is killed nobody owns the blocks it had. |
| PoolLife.BlocksOutlive | examples/tour-plots.c:543-849 | Over every run of the registry a pool's blocks are there, in their sizes, exactly until a step kills it, and always while its slot's generation is the one remembered. |
| PoolSurgery.DetachedKeepsInv | examples/tour-plots.c:576-609 | Taking a pool off both chains and freeing its slot keeps every chain duplicate-free and complete and all counters right. |
| PoolBirth.BornKeepsInv | examples/tour-plots.c:651-670 | Putting a new pool at the head of both chains keeps the invariant. |
| PoolBirth.BlocksKeepInv | examples/tour-plots.c:734-797 | Total bytes stay the sum over all pools of their block sizes and each block keeps one owner. |
| PoolBirth.GrowthWastesSlots | examples/tour-plots.c:635-649 | In every state of the invariant the table has the size that as many doublings make as there are live pools and free slots; so some slots are neither live nor free unless the table is empty. |
| PoolRegistry.Registry.New | examples/tour-plots.c:627-673 | Takes the slot at the head of the free list, or the first one of the enlarged table; the pool made is a plain one exactly if that slot was never an object table's. |
| PoolRegistry.NewTakeGive | examples/tour-plots.c:627-797 | A pool that is made, takes a block and is asked to give it back does so exactly if its slot was never an object table's; otherwise it traps and the block stays taken. |
| PoolRegistry.TableSlotReused | examples/tour-plots.c:643-797 | A run in which a pool made without a kind takes over the slot of a dropped object table, takes a block and traps when it is asked to give it back. |
| DynTable.DynTable.Lookup | examples/tour-plots.c:969-980 | Traps, or returns the slot, exactly as the slot's and the pool's generation say. |
| DynTable.DynTable.Put | examples/tour-plots.c:923-968 | Traps exactly without a place; out of bounds exactly when one doubling of the place table is not enough. Issues a handle no earlier one equals, for a block of the payload's size in the place's table (or a table cached for this index), in a slot left over, else in a dead one, else in a table twice as large; changes no other handle's status. All it does is a run of the steps `DynState` speaks of. |
| DynTable.TooDeepForFirstPut | examples/tour-plots.c:928-936 | On a new registry, the first value stored 65 places deep goes out of bounds. |
| DynTable.CachedTableOfAnotherZone | examples/tour-plots.c:935-940 | A run in which a value put in the inner of two places lands in a table of the outer one. |
| DynTable.DynTable.Sweep | examples/tour-plots.c:907-921 | Retires exactly the slots whose pool is gone or renewed, puts the last of them, if any, at the head of the free chain, and leaves every other slot as it was; no handle changes status; a run of retiring steps. |
| DynTable.DynTable.MakeRoom | examples/tour-plots.c:941-951 | With a slot left nothing happens. Otherwise a table that has a slot whose pool is gone or renewed keeps its size, and the slot to take next is the last such one, its generation one higher; only if every slot is in use by a current pool the table doubles, and the slot to take is the first new one. No handle changes status. |
| DynTable.DynTable.NextSlot | examples/tour-plots.c:942-957 | Takes the head of the free chain, or else the next slot never used; it is free, and every handle keeps its status. |
| DynState.GoodHandleIsOwned | examples/tour-plots.c:969-980 | A handle that does not trap leads to an address its pool still owns, the one it was issued for. |
| DynState.ResolvesIff | examples/tour-plots.c:969-980 | An issued handle resolves exactly while its slot's and its pool's generation are those of issue. |
| DynState.RegistryStep | examples/tour-plots.c:587-724 | Whatever the registry does, the table stays in order and stale handles stay stale. |
| DynState.StepKeeps | examples/tour-plots.c:587-968 | Whatever the registry does, and whenever a dead slot is retired, the table enlarged or a free slot filled, the table stays in order and stale handles stay stale. |
| DynState.OnceStaleAlwaysStale | examples/tour-plots.c:904-980 | Over every run of such steps from a table in order, a handle that trapped once traps forever. |
| DynState.ResolvesToItsBlock | examples/tour-plots.c:904-980 | Over every run, a handle that does not trap leads to the address it was issued for, which its pool still owns. |
| DynState.DifferentHandlesDifferentBlocks | examples/tour-plots.c:923-980 | Over every run, two different handles that do not trap never lead to the same block. |
| SlotMapState.PackUnpack | examples/tour-plots.c:1089-1103 | Packing and unpacking a word returns the low half and the generation up to 32-bit wrap-around. |
| SlotMapState.UnpackPack | examples/tour-plots.c:1089-1103 | Every 64-bit word is the packing of its halves. |
| SlotMapState.HoleIsFree | examples/tour-plots.c:1113-1116 | A word that links a hole never reads as a live entry. |
| SlotMapState.GetRefines | examples/tour-plots.c:1156-1180 | A lookup gives what the finite map from handles to values has, for every slot handed out. |
| SlotMapState.InsertRefines | examples/tour-plots.c:1182-1220 | An insertion adds exactly one entry, under a handle the map did not have, and keeps the invariant. |
| SlotMapState.CutRefines | examples/tour-plots.c:1222-1241 | A removal takes out exactly one entry; the entry moved into the gap keeps its handle and value. |
| SlotMapState.CutKeepsInv | examples/tour-plots.c:1222-1241 | Dense and sparse arrays stay inverse, and live slots and the hole chain partition the slots handed out. |
| SlotMapState.GrowKeepsInv | examples/tour-plots.c:1287-1306 | Growth keeps the invariant because it only happens without holes, whose encoding depends on the capacity. |
| SlotMapState.GrowRefines | examples/tour-plots.c:1287-1306 | Growth changes no entry. |
| SlotMapState.ValidatesIff | examples/tour-plots.c:1156-1169 | An issued handle validates exactly if its slot is occupied and was vacated a multiple of 2^32 times since. |
| SlotMapState.HandleNeverRebinds | examples/tour-plots.c:1156-1241 | With fewer than 2^32 vacations since issue a handle validates exactly while its own entry is present. |
| SlotMapState.HandleForLife | examples/tour-plots.c:1156-1306 | The same over every run of insertions, removals and growths, from any initial memory: the handle leads to the value it was issued for or to nothing, and once nothing always nothing. |
| SlotMap.SlotMap.Insert | examples/tour-plots.c:1182-1306 | Touches what is not the map's exactly if the map never got a pool; otherwise traps exactly when the pool's generation is another or the map is full and its pool an object table, and else the finite map gains exactly this entry, under a handle issued for a new occupation of its slot, the first hole or the next slot never used. The map stays bound to its pool, whose blocks are moved only if it was full. |
| SlotMap.SlotMap.MoveBlocks | examples/tour-plots.c:1287-1306 | The three blocks are moved one after the other, wherever the allocator puts them; afterwards the pool owns all three, each with room for half as many cells again; refused exactly for an object table. |
| SlotMap.SlotMap.Remove | examples/tour-plots.c:1222-1241 | Touches what is not the map's exactly if its pool is dead and the handle gets as far as the table; otherwise true exactly for a handle the finite map has, which then loses exactly this entry. |
| SlotMap.SlotMap.Lookup | examples/tour-plots.c:1156-1180 | Touches what is not the map's exactly if its pool is dead and the handle gets as far as the table; otherwise gives the value the finite map has for the handle, if any. |
| SlotMap.SlotMap.AtDense | examples/tour-plots.c:1278-1285 | As long as the map's pool lives, every dense position holds an entry of the finite map under the handle returned; afterwards it reads what is not the map's. |
| SlotMap.SlotMap.constructor | examples/tour-plots.c:1130-1150 | A new map is empty whatever its cells held before, and its three blocks are in the pool made for it, each with room for all its cells; for a place not on the stack it has neither a pool nor blocks. |
| SlotMap.SlotMap.BoundIsIntact | examples/tour-plots.c:1243-1248 | If the slot holds a live pool of the generation the map remembers, it is the map's pool, with its blocks, each with room for as many cells as the capacity says. |
| SlotMap.LeaveUnder | examples/tour-plots.c:713-724 | When places are left, a map can be read afterwards exactly if its pool is not one of those that go; otherwise nobody owns its blocks. |
| SlotMap.ResetUnder | examples/tour-plots.c:694-709 | When a pool is reset, a map can be read afterwards unless its pool was nested in that one; if it is that pool, its generation is another. |
| SlotMap.DroppedUnderMap | examples/tour-plots.c:1130-1220 | A run in which an entry is found, the map's place is left, and the same lookup reads a block nobody owns. |
| SlotMap.ResetUnderMap | examples/tour-plots.c:694-1220 | A run in which the map's pool is reset, the entry is still found, and the next insertion traps. |
| IntText.NextMeans | examples/tour-plots.c:1536-1638 | What a read means: spaces are skipped, a minus sign counts only right after them, anything else before the digits is dropped, and the digits are a number exactly if it fits. |
| IntText.NothingIff | examples/tour-plots.c:1572-1633 | A read finds no number exactly when no digit is left, and then the stream is used up. |
| IntText.ReadingsGoOn | examples/tour-plots.c:1536-1638 | The reads that follow report what the bytes alone determine, also when a carriage return and its newline came apart. |
| IntReader.Reader.NextMany | examples/tour-plots.c:1536-1638 | Any number of calls in a row report, flags included, what the bytes ahead determine. |
| IntReader.ChunksDoNotMatter | examples/tour-plots.c:1513-1638 | Two readers on the same bytes, cut into chunks in any two ways and with buffers of any size, report the same. |
| IntReader.Reader.NextI64State | examples/tour-plots.c:1536-1638 | The buffered loop with pushback, lookahead and fast path reports exactly what the bytes ahead determine, leaves the flag alone on failure, and leaves the bytes after the number. |
| IntReader.Reader.FastDigits | examples/tour-plots.c:1602-1611 | The inner loop takes the digits at hand as the slow path would. |
| IntReader.Reader.FillState | examples/tour-plots.c:1513-1521 | A refill delivers the next chunk and loses no byte; it delivers nothing exactly at the end. |
| IntReader.AccDigit | examples/tour-plots.c:1523-1534 | A digit is accepted exactly if ten times the value plus it fits in 64 bits, although the first 18 are not checked. |
| IntReader.Reader.ShiftRight | examples/tour-plots.c:1341-1355 | The target changes exactly when a number was read; otherwise the stream is marked bad. |
| IntWriter.Writer.FmtI64Fast | examples/tour-plots.c:1678-1705 | For every number but the minimum the tail of the 24-byte buffer is its decimal notation and the first four bytes are never written. |
| IntWriter.AllPairs | examples/tour-plots.c:374 | The table of digit pairs holds the two digits of every number below a hundred. |
| IntWriter.Writer.PairsReady | examples/tour-plots.c:1666-1676 | After it the pair table is filled. |
| IntWriter.Writer.ShiftLeft | examples/tour-plots.c:1326-1332 | What goes out is the decimal notation. |
| IntText.PrintedReadsBack | examples/tour-plots.c:1536-1705 | What is printed for a number, followed by anything but a digit, reads back as it exactly when it is in range and not the minimum; otherwise the read fails. |
| IntText.ListReadsBack | examples/tour-plots.c:1536-1705 | A list printed with any separator that is no digit reads back number by number. |
| TextBuffer.ByteString.PushI64 | examples/tour-plots.c:1727-1751 | Appends the decimal notation, one digit per call, or traps exactly if it does not fit and growth is refused; with the string's pool gone it traps, or never returns for a negative number. |
| TextBuffer.ByteString.Push | examples/tour-plots.c:1427-1448 | Appends one byte, and traps exactly when the pool is gone or refuses the growth needed; the capacity grows by half exactly when the string is full. |
| TextBuffer.ByteString.Append | examples/tour-plots.c:1450-1477 | Never returns exactly if its loop goes on for ever, which is so exactly for bytes appended to a string whose pool is gone; traps exactly if growth is needed and refused; otherwise appends the bytes, at the first capacity that is enough. |
| TextBuffer.DivergesIff | examples/tour-plots.c:1450-1477 | The guard of the growing loop holds after every number of rounds exactly if the string is poisoned and the text does not fit. |
| HeapState.UnlinkedKeepsInv | prototype-reclaim/sim.c:157-163 | Writing through a block's back pointer takes it out of its chain in constant time and keeps all chains and back pointers right. |
| HeapState.PushedKeepsInv | prototype-reclaim/sim.c:143-148 | Putting a block on top of an arena keeps them right. |
| HeapState.ReleasedKeepsInv | prototype-reclaim/sim.c:151-155 | A freed block goes to its region's free list or back to the system. |
| RegionHeap.RegionHeap.AllocSolo | prototype-reclaim/sim.c:132-150 | With `reuse` on, the head of the region's free list exactly if its capacity is at least the rounded size, otherwise a new block of that size at the address the system gives; the block was not in use, is on top of the arena with null pointers and the rounded size, which is no more than it had when it was freed, and other blocks keep place and contents. |
| RegionHeap.RegionHeap.Recount | prototype-reclaim/sim.c:268-269 | The walk along the chain adds up the sizes of exactly its blocks. |
| RegionHeap.RegionHeap.FreeSolo | prototype-reclaim/sim.c:156-162 | Exactly this block leaves its chain, through its own back pointer; all others keep place and contents. |
| RegionHeap.RegionHeap.Promote | prototype-reclaim/sim.c:164-172 | The block changes arena with its contents; the regions stay in order exactly if the arena is that of its region number. |
| RegionHeap.RegionHeap.PromoteThenSweep | prototype-reclaim/sim.c:164-277 | After a block is handed to an arena, the sweep of that arena keeps it exactly if the own roots or the in-edge set led to it inside the region before; the sweep frees nothing reachable exactly if that is so or the block was not reachable. |
| RegionHeap.PromotedBlockIsLost | prototype-reclaim/sim.c:164-277 | A heap where a block that a root holds is handed to a foreign arena and the next sweep of that arena frees it. |
| RegionHeap.RegionHeap.Mark | prototype-reclaim/sim.c:246-252 | The mark loop terminates and marks exactly what can be reached from the seeds, each block once. |
| RegionHeap.RegionHeap.SweepChain | prototype-reclaim/sim.c:263-266 | Keeps exactly the marked blocks of the chain, in order, and counts the others. |
| RegionHeap.RegionHeap.SweepFromRoots | prototype-reclaim/sim.c:175-193 | A sweep marked from all roots frees exactly what they do not reach in the arena; what it frees is on its region's free list afterwards with `reuse` on, and no block at all with it off. |
| RegionHeap.RegionHeap.SweepLocal | prototype-reclaim/sim.c:238-277 | Whatever state the regions are in, a sweep of one region frees exactly the blocks of its arena that its own roots and its in-edge set do not lead to, to the free lists or to the system as `reuse` says, and the self-check counts exactly the blocks of the region that all roots reach and the sweep has not marked; it counts nothing exactly if there are none. |
| RegionHeap.RegionHeap.SweepRs | prototype-reclaim/sim.c:238-277 | With the regions in order, nothing reachable from any root is freed or changed, in-edge sets stay complete and live, and the self-check counter does not move; a step of a run. |
| RegionHeap.RegionHeap.Verify | prototype-reclaim/sim.c:254-261 | The self-check visits exactly what all roots reach and counts the region's blocks without a mark. |
| RegionHeap.RegionHeap.StoreRs | prototype-reclaim/sim.c:232-235 | The pointer is written, and its target registered exactly if it leaves the region and was not registered; the in-edge sets stay complete; a step of a run. |
| RegionHeap.RegionHeap.Execute | prototype-reclaim/sim.c:132-277 | Every program of allocations, loads and stores of pointers, root changes and sweeps is a run of those steps, in order at every moment, and the self-check counts nothing. |
| RegionHeap.RegionHeap.RsAdd | prototype-reclaim/sim.c:223-230 | A block enters its region's in-edge set at most once. |
| RegionState.LocalMarkCovers | prototype-reclaim/sim.c:236-252 | Every block of a region that the program can reach is found from the region's own roots and in-edge set alone. |
| RegionState.LocalMarkIsUsed | prototype-reclaim/sim.c:243-252 | The mark stack never holds a pointer to freed memory. |
| RegionState.ReachableIsUsed | prototype-reclaim/sim.c:221-277 | Whatever the program can reach is in use. |
| RegionState.SweepKeepsReachable | prototype-reclaim/sim.c:238-277 | A region's sweep frees nothing the program can reach. |
| RegionState.SweepKeepsRegions | prototype-reclaim/sim.c:238-277 | After it no pointer dangles and the in-edge sets are complete. |
| RegionRun.StepIsSafe | prototype-reclaim/sim.c:132-277 | Allocating a block, writing a pointer with its registration, overwriting a root and sweeping a region each keep the regions in order and every reachable block in use as the same object, and the self-check finds nothing. |
| RegionRun.RunStaysInOrder | prototype-reclaim/sim.c:221-277 | Over every run of such steps, no pointer dangles, the in-edge sets are complete and hold only blocks in use, and the self-check counter stays where it was. |
| RegionRun.RunKeepsReachable | prototype-reclaim/sim.c:221-277 | Over every run of such steps, a block that stays reachable is never released. |
| RegionRun.BlocksHaveRoom | prototype-reclaim/sim.c:132-155 | Over every run a block never claims more memory than the system handed out for it, however often it is freed and used again. |
| RegionRun.InEdgesAreStores | prototype-reclaim/sim.c:223-235 | Over every run the in-edge set of a region gains exactly the blocks to which a pointer was written from another region, and loses none. |
| RegionState.MovedKeepsRegionsIff | prototype-reclaim/sim.c:164-172 | Moving a block to another arena leaves every block in its own region's arena, and the regions in order, exactly if its region number is that arena's. |
| Arena.Arena.Alloc | prototype-reclaim/sim.c:58-72 | All zeros, disjoint from everything handed out since the last release, whose bytes do not change. Taken from the top block, or without one from the start of the spare; from a new block exactly if that is missing or too small. |
| Arena.Arena.TakeSpare | prototype-reclaim/sim.c:61 | Without a block on the chain the spare becomes its only one, empty again, and there is no spare left; otherwise nothing changes. |
| Arena.Arena.MakeRoom | prototype-reclaim/sim.c:61-67 | A new block exactly if the top one has not enough room, of the doubled size within the limits; no block changes. |
| Arena.Arena.Release | prototype-reclaim/sim.c:43-53 | Frees the chain's blocks but for the first that may become the spare, in order; the spare keeps its size. |
| Arena.Arena.Destroy | prototype-reclaim/sim.c:54-57 | Nothing is left and the spare is freed as well. |
| Arena.FreedOrKept | prototype-reclaim/sim.c:43-53 | Every block of the chain is freed, once, or kept, never both. |
| BitWord.TrailingZeros | prototype-reclaim/slab_final.c:145 | Counting trailing zeros finds the lowest position of a word that is not zero. |
| BitWord.DropLowest | prototype-reclaim/slab_final.c:145 | `dead &= dead - 1` takes out the lowest one bit and nothing else. |
| BitWord.CountOnes | prototype-reclaim/slab_final.c:155 | The one bits of a word number as many as its positions. |
| BitWord.AndNot | prototype-reclaim/slab_final.c:144 | The dead slots of a word are the occupied ones without a mark. |
| BitWord.ZeroIff | prototype-reclaim/slab_final.c:145 | The inner loop ends exactly when no bit is left. |
| BitWord.SetBit | prototype-reclaim/slab_final.c:106 | Setting a bit adds exactly its position. |
| BitWord.ClearBit | prototype-reclaim/slab_final.c:122-123 | Clearing a bit removes exactly its position. |
| SlabState.AddressesInvert | prototype-reclaim/slab_final.c:50-51 | From any byte of a slot its slab and its number are found again. |
| SlabState.FreshInv | prototype-reclaim/slab_final.c:79-95 | A new slab's free list runs through all slots in order and nothing is occupied. |
| SlabState.TakenKeepsInv | prototype-reclaim/slab_final.c:102-107 | The slot handed out was not occupied, and the free list still enumerates exactly the others. |
| SlabState.FreedKeepsInv | prototype-reclaim/slab_final.c:117-126 | A freed slot joins the free list once; its holder count and in-edge bit are cleared. |
| SlabState.WordCounts | prototype-reclaim/slab_final.c:153-156 | Each word adds as many occupied slots as it has one bits. |
| SlabHeap.Slab.Recount | prototype-reclaim/slab_final.c:154-155 | Counting the one bits word by word gives the number of occupied slots. |
| SlabHeap.Slab.Sweep | prototype-reclaim/slab_final.c:142-150 | Occupied becomes occupied and marked, marks are cleared, the slots freed are counted, and the others keep their holders. |
| SlabHeap.Slab.constructor | prototype-reclaim/slab_final.c:79-95 | The smallest shift for the slot size, and as many slots as fit. |
| SlabHeap.Heap.Alloc | prototype-reclaim/slab_final.c:96-114 | From the first slab of the region that fits, or a new one put in front, whose slots are less than twice the request or 16 bytes: a slot that was not in use, large enough and without holders; sound and exact counts stay so; out of bounds exactly for more than half a slab. |
| SlabHeap.Heap.FreeObject | prototype-reclaim/slab_final.c:117-126 | Exactly this object goes, and the byte count falls by the slot size. |
| SlabHeap.Heap.SweepRegion | prototype-reclaim/slab_final.c:140-159 | Every slab of the region is swept; exactly its objects without a mark are gone, the others keep their counts, and the byte count is exactly the payload of the occupied slots. Sound counts stay sound exactly if no root and no object that stays refers to one that is freed, and exact ones exact exactly if also nothing freed has a reference to one that stays and whose count has not stuck. |
| SlabHeap.Heap.UpdHold | prototype-reclaim/slab_final.c:128-135 | A count goes up or down by one, but 65535 stays and zero is not lowered; the object is freed exactly when its count falls from one to zero. |
| SlabHeap.Heap.StoreHold | prototype-reclaim/slab_final.c:192-196 | Sound counts stay sound, and an object that is freed has no reference left. From exact counts and with `rcFree` on, the old target is freed exactly if its count had not stuck and no holder is left, and counts stay exact exactly if what is freed, if anything, has no reference to an object whose count has not stuck. |
| SlabHeap.Heap.InitRef | prototype-reclaim/slab_final.c:185-191 | The reference is written and its target's count raised modulo 2^16; sound counts stay sound, and exact ones exact, exactly if the target's count had not stuck. |
| HolderState.StoreHoldSound | prototype-reclaim/slab_final.c:128-196 | Whatever is stored where, a reference over itself included, counts stay at least the number of references or stuck. |
| HolderState.InitRefSoundIff | prototype-reclaim/slab_final.c:185-191 | Writing a first reference keeps the counts sound exactly if the target's count had not stuck. |
| HolderState.ZeroMeansUnheld | prototype-reclaim/slab_final.c:128-135 | In every sound state an object whose count is zero has no reference. |
| HolderState.SweepSoundIff | prototype-reclaim/slab_final.c:117-159 | A sweep keeps the counts sound exactly if nothing that stays refers to what it frees. |
| HolderState.RunSoundIff | prototype-reclaim/slab_final.c:96-196 | Over every run of new objects, first references, overwritten references and sweeps, counts stay sound all along exactly if no first reference goes to an object whose count has stuck and no sweep frees an object still referred to. |
| HolderState.RunFreesUnheld | prototype-reclaim/slab_final.c:128-196 | In such a run no reference is left to an object that is freed. |
| HolderState.StuckCountWraps | prototype-reclaim/slab_final.c:185-191 | After 65535 first references to an object its count has stuck and is sound; one more makes it zero. |
| HolderExact.StoreFreesIff | prototype-reclaim/slab_final.c:128-196 | With exact counts and `rcFree` on, overwriting a reference frees its old target exactly if nothing refers to it any more and its count had not stuck. |
| HolderExact.InitExactIff | prototype-reclaim/slab_final.c:185-191 | Writing a first reference keeps the counts exact exactly if the target's count had not stuck. |
| HolderExact.SweepExactIff | prototype-reclaim/slab_final.c:117-159 | A sweep keeps exact counts exact exactly if nothing that stays refers to what it frees, and what it frees refers to nothing that stays with a count that has not stuck. |
| HolderExact.RunExactIff | prototype-reclaim/slab_final.c:96-196 | Over every run of new objects, first references, overwritten references and sweeps, counts are exact all along exactly if no step writes a first reference to an object whose count has stuck, no sweep frees an object still referred to, and nothing that is freed has a reference to an object that stays and whose count has not stuck. |
| HolderExact.RunFreesAtOnce | prototype-reclaim/slab_final.c:128-196 | In such a run with `rcFree` on, an object whose count has not stuck is freed with the very store that takes its last holder. |
| RegionProgram.RunMeansSafeEverywhere | proofs/pathsensitivity.py:52-83 | The continuation-style run reports only successes exactly if on every path no live cell ever points into a dead region. |
| RegionProgram.Verdicts.RunInto | proofs/pathsensitivity.py:52-77 | The recursion that appends verdicts computes them in the order of the reference function. |
| RegionProgram.CheckConcretely | proofs/pathsensitivity.py:80-83 | Decides safety on every path. |
| RegionProgram.ExitKillsDeeper | proofs/pathsensitivity.py:70 | Ending a region kills exactly the regions at least as deep. |
| PathSensitivity.AnalyzeBody | proofs/pathsensitivity.py:119-146 | The loop computes, in both modes, the compositional analysis that `PointerFlow.AcceptedIffFlowsShallow` characterises. |
| PathSensitivity.JoinTracksPaths | proofs/pathsensitivity.py:114-146 | From a state that is the join of the path states, both modes accept alike and the join mode's result is the join of the path mode's. |
| PathSensitivity.ModesAgree | proofs/pathsensitivity.py:149-151 | Path-sensitive and joining analysis accept the same programs. |
| PathSensitivity.AcceptedIsSafe | proofs/pathsensitivity.py:38-151 | An accepted program is safe on every path at every step, wherever regions end. |
| PathSensitivity.PathModeIsPerPath | proofs/pathsensitivity.py:119-146 | Path mode accepts exactly if each path is accepted alone, and its states are the paths' states. |
| PathSensitivity.AcceptsPathByPath | proofs/pathsensitivity.py:149-151 | In either mode a program is accepted exactly if each of its paths is. |
| PointerFlow.AcceptedIffFlowsShallow | proofs/pathsensitivity.py:119-151 | In either mode a program is accepted exactly if on every path no store and no copy carries into a cell what is deeper than it, where a copy carries every cell whose address may ever have got into its source. |
| PointerFlow.ContentIsLastWrite | proofs/pathsensitivity.py:52-77 | What a cell holds at a step of a path is what the last store or copy into it put there, or what it held at the start. |
| PointerFlow.AliveIffNoExit | proofs/pathsensitivity.py:52-77 | A region is alive at a step exactly if it was at the start and no region at most as deep has been left since. |
| PointerFlow.ContentHasFlowed | proofs/pathsensitivity.py:52-146 | What a cell holds when a path runs is among the cells whose addresses may have got there. |
| Inference.Solve | proofs/precision_gap.py:118-133 | Returns the greatest placement within bounds that meets every store, and None exactly when there is none; 4n+4 rounds always reach the fixpoint. |
| Inference.ModelInferred | proofs/precision_gap.py:136-138 | For choices without gaps, succeeds exactly if some permitted placement is accepted. |
| Inference.RoundSettlesOneMore | proofs/precision_gap.py:123-132 | Every round that is not the last brings one more site to its final place. |
| Inference.GreatestIsGreatest | proofs/precision_gap.py:118-133 | The fixpoint lies above every placement that meets the stores. |
| Inference.GapsDefeatInference | proofs/precision_gap.py:118-138 | With gaps in the choices the inferred placement can be one nobody may use. |
| ForcedTwin.Tracer.AnalyzeInto | proofs/precision.py:129-149 | The loop that appends to the caller's trace computes verdict and trace. |
| ShownChecks.TraceIsShownStores | proofs/precision.py:129-161 | The check trace has, in the order of the text, exactly the stores before which no store fails; a store in one branch is not before one in the other. |
| ForcedTwin.AcceptedIffStoresMeet | proofs/precision_gap.py:111-115 | A program is accepted exactly if each of its stores on its own is allowed. |
| ForcedTwin.AcceptedIffPathsShallow | proofs/precision.py:129-154 | A program is accepted exactly if no path stores a deeper cell into a shallower one. |
| ForcedTwin.TwinSearch.Search | proofs/precision.py:200-230 | The search that pushes to and restores a shared list computes the reference search. |
| ForcedTwin.CandidateUnsafeIffAlive | proofs/precision.py:205-214 | The candidate twin is unsafe exactly if the holder's region is alive at the rejected store. |
| ForcedTwin.CandidateShowsTheSameChecks | proofs/precision.py:157-161 | Ending a region after the rejected store leaves the check trace as it was. |
| ForcedTwin.TwinExistsIff | proofs/precision.py:191-232 | Through all branch choices and backtracking, a twin is found exactly if on some path the first rejected store's holder is alive. |
| ForcedTwin.TwinIsForced | proofs/precision.py:191-214 | A twin extends a rejected prefix of a path, shows the same checks, is rejected and is unsafe when run. |
| ForcedLoss.TwinOfTheWhole | proofs/precision.py:14-20 | If a twin is found, there is one of the whole program: an exit put right after a rejected store, in its branch, leaves the verdict and the whole trace as they were, and the program is unsafe. |
| ForcedLoss.ExitsDoNotShow | proofs/precision.py:129-161 | Leaving out every exit of a program changes neither its checks nor the verdict. |
| ForcedLoss.RejectedIffUnsafeTwin | proofs/precision.py:14-20 | A program is rejected exactly if some unsafe program shows the same checks. |
| ForcedLoss.LossIsForced | proofs/precision.py:14-20 | Whatever a sound procedure that sees only the checks accepts, the checker accepts. |
| ForcedLoss.CheckerIsSound | proofs/precision.py:9-20 | Accepting exactly if every check passes is such a procedure. |
| ForcedLoss.DeadHolderHasNoTwin | proofs/precision.py:191-232 | A program that is rejected, for which the search finds nothing, and an unsafe one with the same checks. |
| ForcedTwin.EveryWellScopedRejectionIsForced | proofs/precision.py:101-125 | For well-scoped programs a twin exists exactly if the program is rejected. |
| ForcedTwin.ExitsLastIsWellScoped | proofs/precision.py:101-125 | A program whose exits come after all stores is well-scoped, so its rejections are forced. |
| ForcedTwin.AcceptedPlacementIsSafe | proofs/precision_gap.py:94-138 | A placement the model accepts is safe on every path whatever the order the scopes end in. |

## Left out

- PoolRegistry.Registry.NewAt: requires the parent to be negative or a live pool, which is what the comment above it says it is (examples/tour-plots.c:610-612); for any other number the C code writes into a record that is not a pool.
- PoolRegistry.Registry.New: requires the same of the parent.
- PoolRegistry.Registry.NewTable: requires the same of the parent.
- PoolRegistry.NewTakeGive: requires the same of the parent.
- SlotMap.SlotMap.Lookup: is stated for handles to slots that have been handed out and with an epoch as handles carry it; a forged handle to a slot never used reads whatever memory held.
- SlotMap.SlotMap.Lookup: what a read of memory that is not the map's yields is not modelled; nothing is said of the result then.
- SlotMap.SlotMap.constructor: requires the same of the parent.
- TextBuffer.ByteString.constructor: requires a pool; for a place not on the stack the C code goes on with a null block, as `SlotMap.SlotMap.Insert` shows for the slot map.
- SlotMap.SlotMap.Insert: requires that growth stays below 2^31 slots, where the narrowing of slot numbers would trap.
- SlotMapState.HandleNeverRebinds: holds for fewer than 2^32 vacations of a slot since issue; `SlotMapState.ValidatesIff` has no such limit and says what happens beyond.
- RegionHeap.RegionHeap.SweepRs: requires two more epochs to be left of the 32-bit counter; after a wrap-around old marks could pass for new ones.
- RegionHeap.RegionHeap.SweepRs: the root slots into the region have to be among the roots passed, as the program's calls do.
- IntWriter.Writer.FmtI64Fast: the minimum of the type is outside the printers' domain, as in the C code, where negating it overflows.
- HolderState.InitRefSoundIff: counted references are those written by `init_ref` and `store_hold`.
- Wrap-around of the 64-bit pool generations, byte totals and counters.
- The contents of pool blocks and of block payloads other than pointers, and which address the allocator returns (a parameter that must be unused).
- Allocation failure, which ends the C programs; a failing or negative `read`; the buffering of output; virtual tables.
- Marking in `slab_final.c` across regions, its bump regions, and the slab mode of `sim.c`: the safety of region-local sweeps is proved for the epoch marks of `sim.c`.
- Event-driven freeing (`ev` and `rsev` modes) and the global sweep over two arenas: the same mark and sweep loops without the in-edge sets.
- Timing, statistics and the benchmark loops of the prototypes, which are replaced by an arbitrary program.
- `src/main.c`, `tools/`, `bench/`, `prototype-heap/` and the remaining scripts in `proofs/`.
- The recorded depths that `forced_twin` carries along in `D` and never reads.
