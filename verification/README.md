# Shared-memory IPC between two cores, verified

Two cores, each with its own kernel image, share a region of memory and talk through it. This
project models how they do: a size-class allocator over the region, a registry of named blocks,
a one-slot mailbox on every block, test-and-set locks, channels built of two blocks, and devices
built of channels. It proves what those layers promise, alone and against each other's
interleavings. `dafny verify dfyconfig.toml` checks everything.

## How it is laid out

| file | what it holds |
|---|---|
| Seqs.dfy | unsigned words, sequences without repetition, sums |
| IntrusiveList.dfy | the doubly linked lists, as linked objects with a ghost sequence |
| Pools.dfy, Layout.dfy | the allocator on values, and where its blocks lie in the region |
| Allocator.dfy, Setup.dfy | the allocator on linked nodes and headers, and carving the region |
| Locks.dfy, FillTest.dfy | lock words, the lock-number keeper, the two counter loops on any number of cores |
| LockActs.dfy | what each call does to the lock words, in order |
| RegistrySpec.dfy, Mailbox.dfy | open, close and the four transfers on values |
| TwoCores.dfy | the same calls of two cores, one access to shared memory at a time |
| Lives.dfy | what their transfers see: the mailbox over every interleaving |
| Answers.dfy | every call of theirs ends, and with a true answer |
| Agreement.dfy | registry and allocator over all runs of whole calls, headers shared |
| SharedBlocks.dfy | the same over every interleaving of TwoCores |
| SharedMemory.dfy | open, close and the transfers on linked objects and memory bytes |
| LockOrder.dfy | any number of cores taking locks as the calls do |
| ChannelNames.dfy, Channels.dfy | channel names, creating and destroying channels on values |
| LockNumbers.dfy | which channel numbers set-up leaves free |
| Dispatch.dfy, Driver.dfy | the callback list and the channel calls on objects |
| Delivery.dfy, Devices.dfy | devices end to end on values, and their file operations on objects |
| InitRace.dfy | two cores racing through the initialisation |

What the source does by changing things in place is a class whose methods are proved equal to a
function on values; what the source promises is then proved about those functions, for every
input and every run. What the cores do at the same time is a transition system with one program
counter per core. Every test made outside a lock is a step of its own, and so is every write that
such a test of the other core can see (`m_open`, `m_mem`, `m_length`); a step may in addition make
writes that are only read under the lock.

A bit mask over the cores is modelled as the set of cores whose bit is set; a pointer as an
address, 0 being null; memory as an array of bytes. Block headers are objects found by address.

## Hypotheses

The contracts name the conditions under which the code does what it is for.

- OWNER: list nodes and heaps are static in each core's image (shm.c:41-59) while headers and
  registry are shared. Claims that tie the two together hold for runs in which one core makes every
  creating open and every last close. `Agreement.OwnerNeeded` shows what happens otherwise.
- BIG: `mod_free` asserts an order above the first (shm.c:692), so lengths over 996 are asked for.
- SHORT: names are cut at 31 characters (shm.c:806-809). `RegistrySpec.OpenNamesExactly` says
  exactly when an open keeps the names different; channel names are always short enough.
- NOWRAP: `length + offset` is unsigned (shm.c:977, shm.c:1069). `Mailbox.ClipInBlock` is exact.
- FRESH: the last close keeps `m_size` and `m_offset` (shm.c:849-855), so it should find no fragment
  pending. `Mailbox.FreshIsExact` and `Mailbox.StaleSlot` are exact.
- HEADERS: memory reads as a block header at the addresses of blocks only. A payload could forge the
  signature that `mod_free` looks for (shm.c:681); the classes are about memory where none does.
- UPD0: callers of the get forms pass `update == 0`.
- PROC: a core makes one call at a time, in process context.

Four places where the code does not do what a reader may expect, each with a lemma: a send_offset
on a handle that is closed between its tests is told NULL_MEM where LENGTH_ERR is the answer
(`Answers.RefusalIsTrue`, `Answers.OvertakenHappens`); a get tests its peer's bit and not its own, so
a core that reads through a handle it has not opened may copy from freed memory
(`TwoCores.GetNeedsOwnBit`); with the compiled-in table the channels 0 and 9 to 22 ask for lock
numbers that set-up has already handed out (`LockNumbers.HeapNumbersCollide` has the exact numbers
for every table); the size check of the region is fooled by a pool table whose total wraps
(`Layout.WrappedSizePasses`). `dev_write` returns one more than the number of bytes it sent; the
model does too.

## Model

| member | source | states |
|---|---|---|
| IntrusiveList.ListHead.AddHead | shm.c:157-169 | Adding at the head puts the node in front of the old list and leaves an acyclic chain with correct back links and count. The registry's copy (shm.c:232-243) has the same body. |
| IntrusiveList.ListHead.RemoveHead | shm.c:171-191 | Removes exactly the head, or returns -1 on the empty list; links and count stay right (registry copy: shm.c:245-265). |
| IntrusiveList.ListHead.RemoveEntry | shm.c:193-230 | Returns 0 exactly when the node is on the list, removes exactly that node, and keeps links and count right (registry copy: shm.c:267-303). |
| IntrusiveList.ListHead.Unlink | shm.c:205-224 | Relinking around the found node closes the gap in both directions, at either end and in the middle. |
| IntrusiveList.HeadToBusy | shm.c:618-619 | Moving the head node from the free to the busy list keeps two disjoint chains over the node array. |
| IntrusiveList.EntryToFree | shm.c:728-738 | Moving a node found anywhere on the busy list to the free list keeps two disjoint chains; the removal cannot fail. |
| Locks.LockKeeper.Init | mpi.c:69-81 | Fails exactly when the number is already handed out on this core, and takes that number only. |
| Locks.LockKeeper.Destroy | mpi.c:83-92 | Releases the number the mutex holds and no other. |
| Locks.SystemLocks.TestAndSet | mpi.c:122 | Sets the word and tells what it was, in one step. |
| Locks.SystemLocks.Lock | mpi.c:113-123 | A core alone takes a clear lock word with its first test. |
| Locks.SystemLocks.Unlock | mpi.c:125-134 | Clears the word of that lock only. |
| LockActs.TriesWithin | shm.c:652-662 | The classes mod_malloc tries are classes there are. |
| FillTest.StepKeeps | mpi.c:155-172 | Every step of every core keeps mutual exclusion on the lock word and the counter equal to its start plus all finished additions. |
| FillTest.NoUpdateLost | mpi.c:155-176 | For any number of cores and any interleaving: at most one core is between lock and unlock, and the final value is the initial one plus the sum of all counts modulo 2^32. |
| FillTest.LockTells | mpi.c:155-172 | At every point of every interleaving the lock word is set exactly while some core is between its lock and its unlock. |
| FillTest.StepGetsOn | mpi.c:113-172 | Every step of a core that has not ended and does not spin on the lock is one access less to make; a spin changes nothing. |
| FillTest.CanFinish | mpi.c:155-176 | From every state that keeps the invariant all cores can be brought to their ends, and there the lock is clear and the sum complete. |
| FillTest.RunCanFinish | mpi.c:155-176 | So can every run, for any counts and any number of cores. |
| FillTest.ShmFillTest | mpi.c:155-176 | One core running the locked loop adds its count and leaves lock word and the rest of memory as they were. |
| FillTest.BareStepKeeps | mpi.c:178-196 | Every load and every store of the unlocked loop keeps the bounds on the counter. |
| FillTest.BareBounds | mpi.c:178-196 | Without the lock the final value is at most the start plus the sum of the counts, and at least the start plus 2 when every count is at least 2, in any interleaving. |
| FillTest.BareBoundIsTight | mpi.c:178-196 | The lower bound is reached: for two cores of any counts of at least 2 there is a schedule that ends at the start plus 2. |
| FillTest.BareSumIsReached | mpi.c:178-196 | The upper bound is attained too: cores that run one after the other without the lock lose nothing. |
| FillTest.BareGetsOn | mpi.c:178-196 | Without the lock no core ever waits: every step of one that has not finished is one access less to make. |
| FillTest.ShmFillTestNolock | mpi.c:178-196 | One core alone loses nothing in the unlocked loop. |
| Pools.ClassSizeIsShift | shm.c:134-140 | Doubling class by class gives 1 << order bytes. |
| Pools.FreshPoolInv | shm.c:355-375 | After set-up the free list holds every block once, nothing is busy and no header says busy. |
| Pools.TakeInv | shm.c:608-622 | Taking the head block keeps: each block on exactly one list, flag set exactly for busy blocks, lengths within the block. |
| Pools.GiveInv | shm.c:699-738 | Giving any block back keeps the same. |
| Pools.MallocFromChoice | shm.c:652-662 | The loop from class i on takes the first class that fits and has a free block, and gives up only if there is none. |
| Pools.MallocOrdered | shm.c:598-666 | Whatever the headers say, mod_malloc keeps the lists of every pool in order: each block on exactly one of the two. |
| Pools.MallocChoice | shm.c:641-666 | mod_malloc picks the smallest class that fits and has a free block, fails exactly when no fitting class has one (empty pools included), marks that block and touches no other. |
| Pools.MallocTight | shm.c:641-666 | Above the first class the block is smaller than 2*(size+28) exactly when the class below is too small; so whenever that class still has a free block. |
| Pools.FreeUndoesMalloc | shm.c:598-743 | Freeing what was just allocated restores every list, flag and length. |
| Pools.FreeOrdered | shm.c:668-743 | And so does mod_free, whatever block it is asked to free. |
| Pools.FreeBusy | shm.c:668-743 | Freeing a busy block makes exactly that block free. |
| Pools.FreeTwice | shm.c:700-705 | A second free of the same pointer changes nothing. |
| Pools.FreeAndBusyCount | shm.c:598-743 | Free and busy blocks of a pool together are no more than its blocks. |
| Pools.FreeBlockLeft | shm.c:641-666 | While some pool has a free block, fewer blocks are busy than there are. |
| Layout.TotalShmNumber | shm.c:116-128 | The accumulator loop computes the number of blocks modulo 2^32. |
| Layout.TotalShmSize | shm.c:130-144 | The accumulator loop with its doubling size computes the bytes of all pools modulo 2^32. |
| Layout.BaseIsTight | shm.c:417-423 | The pools start on a 1K boundary behind the info array, less than 4K behind the end of the control data. |
| Layout.CheckIsExact | shm.c:414-429 | When the size check passes, control area, info array and pools fit the region one after the other if and only if none of the two unsigned sums wrapped, despite the two roundings of the start address. |
| Layout.CheckIsComplete | shm.c:414-429 | When no sum wraps, the check passes exactly for regions long enough. |
| Layout.WrappedSizePasses | shm.c:130-144 | A table and a region that pass the check although the pools do not fit, because the sum wraps. |
| Layout.ShippedTotals | shm.c:23-37 | The compiled-in table comes to 12434 blocks in 88 MB, so its sums do not wrap. |
| Layout.BlockInPool | shm.c:355-377 | A block of the table lies inside its pool and the pools inside the carved part. |
| Layout.BlocksDisjoint | shm.c:355-377 | Two different blocks of the table, of the same or of different classes, do not overlap. |
| Layout.StepKeeps | shm.c:598-743 | Each allocation and each free keeps all pools in order and of the same size. |
| Layout.LivePayloads | shm.c:416-445 | After any run of mod_malloc and mod_free the live payloads lie inside the region behind control area and info array, are pairwise disjoint, and overlap no block header. |
| Allocator.Heap.MarkBusy | shm.c:615-616 | The header writes of an allocation make the header say busy with the asked length. |
| Allocator.Heap.TakeHead | shm.c:608-622 | Node, header and lists after taking the head block are those of Pools.Pool.Take; the pointer is that block's payload. |
| Allocator.Heap.MallocHeap | shm.c:598-639 | One heap: returns the head block's payload or 0 when the free list is empty, and every path gives the heap lock back. |
| Allocator.Heap.MarkFree | shm.c:735-736 | The header writes of a free make the header say free with length 0. |
| Allocator.Heap.GiveBack | shm.c:728-738 | Node, header and lists after a free are those of Pools.Pool.Give. |
| Allocator.Heap.FreeBlock | shm.c:699-740 | Of the five early returns under the lock only "wrong flag" can happen for a block pointer; every path gives the heap lock back. |
| Allocator.Heap.Init | shm.c:316-389 | An empty pool changes nothing; a taken lock number fails (and releases number 0); otherwise every block is free, and headers are written only when not local_only. |
| Allocator.Heap.Carve | shm.c:336-389 | The fields, the two lists, the headers and the returned size of a heap being set up. |
| Allocator.Heap.FillFree | shm.c:355-376 | The set-up loop threads every node to the free list and stamps every header when asked to. |
| Allocator.Allocator.OneHeap | shm.c:598-743 | An operation on one heap keeps the whole allocator in order: no other heap's lists or headers change. |
| Allocator.Allocator.TryHeap | shm.c:654-661 | One attempt of mod_malloc leaves the other heaps alone and returns the payload of the block it took. |
| Allocator.Allocator.Malloc | shm.c:641-666 | The class on linked nodes does exactly Pools.Malloc and returns the payload address the layout gives that block, or 0. On the way it takes and gives back, one after the other, the locks of exactly the classes that fit, up to the one with a free block. |
| Allocator.Allocator.HeaderOf | shm.c:678-697 | Behind a block pointer lies that block's header, and it names the block's class and number, so node and heap are recovered. |
| Allocator.Allocator.PointsToOne | shm.c:678-697 | A pointer belongs to at most one block. |
| Allocator.Allocator.PointsToMapped | shm.c:678-690 | A header lies before a pointer exactly when the pointer is some block's payload. |
| Allocator.Allocator.Free | shm.c:668-743 | The class on linked nodes does exactly Pools.FreeSpot for the block pointed to, under that heap's lock, and nothing for any other pointer. It demands what mod_free asserts of the order. |
| Setup.CheckRegion | shm.c:406-431 | Accepts exactly the tables of at most 15 pools that pass the size check, and computes the rounded start. |
| Setup.MemInit | shm.c:393-449 | Success means that everything fits, every heap is set up on its part of the region, and exactly the lock numbers of the pools that are not empty have been handed out besides those taken before; it succeeds whenever the check passes, the lock numbers are free and no pool exceeds the int range. |
| Setup.CarveAll | shm.c:431-446 | The loop over the pools sets each heap up where the layout puts it and stops at the first failure. |
| Setup.CarveOne | shm.c:433-445 | One round of the loop sets up one heap and leaves those before and after it as they are. |
| Setup.SwitchOn | shm.c:546-548 | From here on mod_malloc and mod_free work, on a valid allocator whose every block is free. |
| RegistrySpec.CreateGood | shm.c:793-810 | Creating an entry keeps: each entry on exactly one list, busy exactly when some core has it open, memory exactly when busy. |
| RegistrySpec.DropGood | shm.c:848-871 | A last close keeps the same. |
| RegistrySpec.OpenKeeps | shm.c:746-831 | Every open keeps the registry in order, and with names under 32 characters (SHORT) the busy names pairwise different. |
| RegistrySpec.CloseKeeps | shm.c:833-886 | Every close keeps both. |
| RegistrySpec.OpenNamesExactly | shm.c:763-810 | An open keeps the names different if and only if it does not create an entry whose kept, possibly cut, name is already there. |
| RegistrySpec.LongNameTwice | shm.c:806-809 | A name of 32 characters or more is cut, not found again, and entered twice. |
| RegistrySpec.StoredPrefix | shm.c:806-809 | What is kept of a name is the name, or its first 31 characters. |
| RegistrySpec.FindUnique | shm.c:761-790 | The scan finds the one busy entry of that name. |
| RegistrySpec.OpenIsAtomic | shm.c:746-831 | On the map of names to (id, length, set of cores) an open is atomic, with its result and the length it stores: an existing name is marked or too long; a new name gets an identifier no other has, fails with OPEN_ERR exactly when every identifier is taken, and otherwise with MALLOC_ERR exactly when mod_malloc grants nothing. |
| RegistrySpec.FullExactly | shm.c:793 | Every identifier belongs to a name exactly when the free info list is empty. |
| RegistrySpec.CloseIsAtomic | shm.c:833-886 | A close is atomic: the core leaves the set, and the name goes with its last core. A refused one returns -1 exactly for a handle out of range, and NOT_OPEN otherwise. |
| Mailbox.ClipInBlock | shm.c:977 | The clipped access stays in the block if and only if length + offset does not wrap (NOWRAP); the same at shm.c:1069. |
| Mailbox.History | shm.c:937-943 | Over any history of sends and gets on one life of an entry that starts empty (FRESH, UPD0, NOWRAP): the pending fragment is that of the latest send since the latest get, it lies in the block, m_offset + m_size stays within m_length if m_offset did at the start, and every byte is its last writer's. |
| Mailbox.FetchReturns | shm.c:1015-1035 | A get of n bytes returns the first min(n, k) bytes of the pending k-byte fragment, or nothing. |
| Mailbox.LookReturns | shm.c:1059-1081 | A get_offset at o of n bytes returns the slice from o to min(o+n, m_length), each byte as its last writer wrote it. |
| Mailbox.FreshIsExact | shm.c:849-855 | The slot tells the truth over every history of a life if and only if nothing was pending when the life began. So FRESH is exactly what the last close has to meet. |
| Mailbox.StaleSlot | shm.c:849-855 | The last close keeps m_size, m_offset and the other core's m_update bit. The entry's next life is in order if and only if that fragment fits the new block, and then its first get returns nothing, as it should, if and only if m_size was 0 at the last close. |
| Mailbox.RefusedExactly | shm.c:925-952 | On a registry in order, each error of the four calls happens in exactly these cases; a closed handle is NULL_MEM to send and get and LENGTH_ERR to the offset forms (also shm.c:965-990, shm.c:1003-1041, shm.c:1053-1095). |
| Mailbox.TransferIs | shm.c:917-1098 | Each of the four calls either is refused with that error and changes nothing, or makes its transfer on its entry, hands back what the transfer does, and changes nothing else. |
| Mailbox.LookDisturbsNothing | shm.c:1075-1083 | A get_offset leaves the answer of every later transfer on any handle as it was. |
| Mailbox.SendThenGet | shm.c:937-943 | Of a send longer than the block what fits is sent; the next get hands out its first bytes; a get that asks for less takes the rest away as well (shm.c:1022-1027). |
| Mailbox.UpdateTells | shm.c:940 | After any history the m_update bit of a core is set exactly when it has sent since its peer last got, by either form of get (also shm.c:980, shm.c:1024, shm.c:1080). |
| TwoCores.StepRespects | shm.c:746-1098 | No step of one core touches the other core's bit, or memory and length of an entry that bit is set on. |
| TwoCores.StepView | shm.c:760-877 | The field writes inside a critical section do not change what the section amounts to once it is through. |
| TwoCores.ScanStep | shm.c:761-815 | Seen through the pending writes, the scan does the whole open and settles its result and the length it stores for the caller. |
| TwoCores.ClearStep | shm.c:846-847 | Seen through the pending writes, clearing the bit does the whole close. |
| TwoCores.CopyStep | shm.c:937-943 | The locked copy changes one entry and nothing of it that open and close work on (also shm.c:1015-1035). |
| TwoCores.PromiseKept | shm.c:828-830 | What a call will hand back, once settled, is what it hands back: result, length, bytes. |
| TwoCores.NextInv | shm.c:746-1098 | Every event of either core keeps the invariant: at most one core inside, the lock word telling, the registry in order behind the pending writes, and every core's knowledge true. |
| TwoCores.RunInv | shm.c:746-1098 | So does every allowed run. |
| TwoCores.CheckThenLock | shm.c:929-945 | In every interleaving, when a transfer copies, the memory and length it read before the lock are still the entry's, the memory is not null, the caller holds the handle, and what a send, a send_offset or a get_offset copies lies in the block (also shm.c:970-984, shm.c:1061-1089). For get see Lives.MailboxOfRun. |
| TwoCores.ListsMatchBits | shm.c:793-871 | Whenever the lock is free an entry is on the busy list exactly when m_open is non-zero, and busy names differ. |
| TwoCores.Refines | shm.c:746-886 | Each event refines the atomic map of name to (id, length, set of cores): the scan is an atomic open with that result and that length, clearing the bit an atomic close, a call refused before the lock one that fails atomically, all else nothing. |
| TwoCores.RunRefines | shm.c:746-886 | So does every event of every interleaving of two cores. |
| TwoCores.RefusedClose | shm.c:843-883 | The unlocked test of the own bit linearizes: a refused close is one that would fail atomically. |
| TwoCores.NeverStuck | shm.c:760-877 | As long as a call is unfinished some core can take a step that changes the state. |
| TwoCores.GetNeedsOwnBit | shm.c:1010-1029 | For any registry: a get by a core that does not hold the handle itself can reach its copy after the peer's last close freed the memory. So the own bit is needed. |
| Lives.CopyApplies | shm.c:937-943 | The locked copy, with the size computed from a length read before the lock, is the whole atomic transfer on the entry, and hands back what that does (also shm.c:978-983, shm.c:1020-1027, shm.c:1069-1081). |
| Lives.CallTells | shm.c:917-1098 | Each of the four calls, made alone and not refused, takes the life of its entry one transfer further and hands out what the life says. |
| Lives.NextTold | shm.c:746-1098 | Every event that keeps FRESH leaves every busy entry as what the transfers of its life, in the order of their copies, make of its start, and every free entry with nothing pending. |
| Lives.RunTold | shm.c:746-1098 | So does every run of the two cores. |
| Lives.MailboxOfRun | shm.c:917-1098 | In every interleaving that keeps FRESH: a transfer that copies is an atomic one; what it copies lies in the block; a send returns how much fits; a get hands out the first bytes of the latest fragment not yet taken on this life of the entry, or nothing; get_offset hands out for each byte what was last written to it on this life. |
| Answers.HeldHasMemory | shm.c:929-935 | An entry whose bit a core holds has memory and length, whatever the other core is about to write. |
| Answers.HolderNotRefused | shm.c:929-945 | A transfer by a core that holds the handle, with an offset below the length and, for a get, the peer's bit set, is refused by none of its tests, in any interleaving (also shm.c:968-984, shm.c:1010-1035, shm.c:1059-1089). |
| Answers.AcceptedCopies | shm.c:929-945 | From every reachable state with the lock free a call that no test is against reaches its copy and returns, with exactly the registry and the outcome of the call made alone. |
| Answers.StepGetsOn | shm.c:746-1098 | Every step of a core inside a call that does not wait for the lock brings the call nearer to its end; waiting changes nothing. |
| Answers.CanFinish | shm.c:746-1098 | From every state that keeps the invariant both cores can be brought to the end of their calls, and there the lock is free. |
| Answers.EveryRunEnds | shm.c:746-1098 | So can every run of two cores. |
| Answers.RefusedAtOnce | shm.c:1003-1006 | A transfer refused at once is told what the same call made alone would be told (also shm.c:925). |
| Answers.RefusalIsTrue | shm.c:925-990 | In every interleaving a transfer that one of its unlocked tests refuses is told what the same call, made alone at some point of this one, would be told; except that a send_offset whose handle is not held and is closed between its tests is told NULL_MEM where that would be LENGTH_ERR (also shm.c:1003-1041, shm.c:1053-1095). |
| Answers.OvertakenHappens | shm.c:968-974 | The exception is real on every registry: for every handle only the other core holds there is a run in which send_offset is told NULL_MEM although at no point of the call that is the answer. |
| Agreement.BigAvoidsFirstClass | shm.c:692 | A request over 996 bytes (BIG) is never served from the class mod_free refuses. |
| Agreement.SmallTakesFirstClass | shm.c:692 | A smaller request is, as long as that class has a free block. |
| Agreement.OpenAgrees | shm.c:793-815 | Every open keeps busy entries and busy blocks in bijection through m_mem, with equal lengths. |
| Agreement.CloseAgrees | shm.c:847-871 | Every close does. |
| Agreement.LastCloseFinds | shm.c:857-869 | At a last close the entry is on the busy list and its memory is a busy block above the first class, so neither "not in busy list" branch and no assertion is reached. |
| Agreement.EntriesApart | shm.c:937 | The blocks of two busy entries do not overlap. |
| Agreement.DoReady | shm.c:598-886 | With or without the rules, the registry and the free and busy lists of each core stay in order. Of the headers, which both cores write, nothing is claimed. |
| Agreement.OwnerSpared | shm.c:746-886 | Under OWNER and BIG the calls of the other core leave the owner's lists and the shared headers as they are. |
| Agreement.DoAgrees | shm.c:746-886 | Each call that keeps OWNER and BIG, of either core, keeps registry and owner's allocator in agreement, headers included. |
| Agreement.FreshAgrees | shm.c:526-537 | They agree as mod_init leaves them: one info entry for every block. |
| Agreement.RunAgrees | shm.c:746-886 | Over every run that keeps OWNER and BIG they agree, and while any heap has a free block the free info list is not empty. |
| Agreement.EntriesSuffice | shm.c:793 | Info entries are never the bottleneck, by counting. |
| Agreement.ChoiceIsMalloc | shm.c:652-662 | What mod_malloc chooses depends on this core's lists only, not on the headers. |
| Agreement.MarkSeen | shm.c:615-616 | A header marked by the other core's mod_malloc leaves this core's lists in order and in contradiction to the header. |
| Agreement.TwoCreatorsCollide | shm.c:608-619 | Without OWNER: the busy flag the other core has set is not looked at, so the same block is chosen again. |
| Agreement.OwnerNeeded | shm.c:793-815 | So two cores that each create an entry from equal lists, over shared headers, leave two busy entries over one block. |
| SharedBlocks.NextAgrees | shm.c:746-886 | One step of two cores at a time: when grants and frees are those of the owner's allocator, every step that keeps OWNER and BIG keeps registry and allocator in agreement, seen through the pending writes and the pending free. |
| SharedBlocks.RunKeeps | shm.c:746-886 | So does every interleaving. |
| SharedBlocks.CopiesApart | shm.c:937-979 | In every interleaving that keeps OWNER and BIG, the block a transfer copies to or from overlaps no other open entry's block and no block header (also shm.c:1023, shm.c:1077). |
| SharedMemory.CopyIn | shm.c:937 | memcpy into memory changes those bytes and no others. |
| SharedMemory.Store | shm.c:937 | A copy into one entry's block changes that entry's data as intended and no other entry's. |
| SharedMemory.FillIn | shm.c:800-809 | The field writes of a creating open, with the name cut and terminated. |
| SharedMemory.Registry.Scan | shm.c:761-790 | The walk along the busy list finds what RegistrySpec.Find finds. |
| SharedMemory.Registry.Reopen | shm.c:765-787 | An open of a known name: too long, already open, or marked; result and length as specified. |
| SharedMemory.Registry.Enter | shm.c:798-810 | Lists and fields of a creating open are those of RegistrySpec.Create. |
| SharedMemory.Registry.CreateEntry | shm.c:793-815 | A creating open takes its block from the allocator and keeps registry, bytes and allocator in agreement. |
| SharedMemory.Registry.OpenKnown | shm.c:763-790 | The branches of open that leave the lists alone. |
| SharedMemory.Registry.Open | shm.c:746-831 | mpi_shm_open does exactly Agreement.OpenWith on registry and allocator, keeps them in agreement, and takes and gives back exactly the locks LockActs says, on every path. |
| SharedMemory.Registry.FreeMem | shm.c:854 | mod_free on a closing entry's memory meets its assertions and frees exactly that block. |
| SharedMemory.Registry.Forget | shm.c:851-855 | Erasing name, length, update bit and memory of a closing entry. |
| SharedMemory.Registry.Unlist | shm.c:857-871 | The list moves of a last close; its two error branches are unreachable. |
| SharedMemory.Registry.LastOut | shm.c:849-873 | A last close as a whole, on objects. |
| SharedMemory.Registry.CloseLocked | shm.c:845-879 | The locked part of a close, last or not. |
| SharedMemory.Registry.Close | shm.c:833-886 | mpi_shm_close does exactly Agreement.CloseWith, keeps the agreement, and takes and gives back exactly the locks LockActs says, on every path. |
| SharedMemory.Registry.Deposit | shm.c:936-943 | The locked part of a send and of a send_offset (shm.c:978-984). |
| SharedMemory.Registry.DepositLocked | shm.c:938-945 | From its lock to its unlock a send makes one deposit, under s_mod_lock and no other lock. |
| SharedMemory.Registry.Withdraw | shm.c:1022-1026 | The locked part of a get and of a get_offset (shm.c:1077-1080), with update 0. |
| SharedMemory.Registry.WithdrawLocked | shm.c:1018-1035 | And a get one withdrawal. |
| SharedMemory.Registry.Send | shm.c:917-955 | mpi_shm_send does exactly Mailbox.Send, with all its errors, disturbs no other entry's data, and locks exactly when its tests let it through. |
| SharedMemory.Registry.SendOffset | shm.c:957-994 | mpi_shm_send_offset does exactly Mailbox.SendOffset (NOWRAP), and locks exactly when its tests let it through. |
| SharedMemory.Registry.Get | shm.c:996-1044 | mpi_shm_get with update 0 does exactly Mailbox.Get (FRESH), and locks exactly when its tests let it through. |
| SharedMemory.Registry.GetOffset | shm.c:1046-1098 | mpi_shm_get_offset with update 0 does exactly Mailbox.GetOffset (NOWRAP), and locks exactly when its tests let it through. |
| SharedMemory.CallsWithin | shm.c:746-886 | Whatever the state, what opens and closes do to the locks is what LockOrder asks of a call. |
| SharedMemory.ThreadInfos | shm.c:531-537 | The set-up loop threads every info entry to the free list. |
| SharedMemory.SetUp | shm.c:526-537 | The registry mod_init leaves: valid, in agreement with the fresh allocator, one free entry for every block. |
| LockOrder.TriesEndAtBlock | shm.c:652-662 | mod_malloc locks fitting classes in rising order, the last being the one that has the block. |
| LockOrder.CallOrdered | shm.c:760-877 | Every call, with the lock uses the classes are proved to make, takes locks only above those it holds, gives back the latest first and ends holding none. |
| LockOrder.StepKeeps | mpi.c:113-133 | A set word has exactly one holder, at every step. |
| LockOrder.SomeoneMoves | mpi.c:113-123 | In a state with an unfinished core some core's next step is not a spin. |
| LockOrder.NoDeadlock | shm.c:598-877 | For any number of cores running any calls, with the lock uses Allocator and SharedMemory are proved to make: no two ever hold the same lock, and every reachable state with an unfinished core has an enabled step. |
| LockOrder.CanFinish | shm.c:598-877 | From every such state all cores can be brought to their ends, with every lock word clear. |
| ChannelNames.NameInjective | shm.c:1253-1263 | Different channel numbers or directions have different names. |
| ChannelNames.PrintedInjective | shm.c:1255 | %d of an unsigned is injective, negative readings included. |
| ChannelNames.NamesSpelled | shm.c:1254-1266 | What the format strings give, for either core, and for a number that %d prints as negative. |
| ChannelNames.NameShort | shm.c:1253-1263 | Every channel name fits the 32-byte buffer and is kept whole, so SHORT holds for channels. |
| Channels.OpenShape | shm.c:746-831 | What an open does to who holds what: nothing if it fails, else this name is held by this core. |
| Channels.CloseShape | shm.c:833-886 | A close takes the core off the entry and the entry away with its last core. |
| Channels.TwoUndone | shm.c:1265-1322 | Two opens of different names can be taken back in the order they were made. |
| Channels.ShapeFixesBlocks | shm.c:793-871 | When registry and allocator agree, the busy entries determine every heap's sets of free and busy blocks. |
| Channels.ShapeFixesAbs | shm.c:763-790 | And the map of names. |
| Channels.FailureRestores | shm.c:1230-1290 | A create that fails at any point restores lock keeper, callback list, the map of names and the sets of free and busy blocks, when this core had not opened the two names (OWNER, BIG). |
| Channels.DestroyUndoesCreate | shm.c:1317-1329 | So does a successful create followed by destroy. |
| Channels.CreateFailsExactly | shm.c:1230-1303 | A create fails if and only if nothing is asked for, there is no memory, the lock number is taken, or one of the two names cannot be opened. |
| LockNumbers.TakenExactly | shm.c:333 | On a core that has run mod_init (shm.c:472, shm.c:557, shm.c:1137), the lock number of channel n is taken if and only if n is 0, the default channel's, or 9 + i for a class i that has blocks. |
| LockNumbers.HeapNumbersCollide | shm.c:1244-1251 | So on such a core, memory and names permitting, a create fails for exactly these numbers; and for these it fails in any case, changing nothing. |
| LockNumbers.ShippedNumbers | shm.c:23-37 | With the compiled-in table these are 0 and 9 to 22. Channels 1 to 8, which the devices use, collide with no table. |
| Channels.CreatePaired | shm.c:1230-1303 | Creating a channel, or failing to, keeps all existing channels of both cores working. |
| Channels.DestroyPaired | shm.c:1317-1329 | Destroying one keeps all others working. |
| Channels.ChannelsPair | shm.c:1253-1298 | After any creates and destroys by both cores in any order: one core's send handle is the other's receive handle exactly for equal numbers, all other handles differ, and the lengths agree. |
| Channels.HandleIsName | shm.c:763-790 | Two handles are equal exactly when number and direction are. |
| Channels.DispatchUnique | utils.c:602-610 | At most one registered channel matches a message, so the loop finds the right one wherever it is on the list. |
| Channels.NeverTruncated | shm.c:1343-1349 | A channel send that passes the length test is stored whole. |
| Dispatch.Callbacks.Register | utils.c:529-555 | Registering appends to the end of the list, whatever its length. |
| Dispatch.Callbacks.Unregister | utils.c:557-586 | Unregistering removes exactly that channel, at the head, in the middle or absent. |
| Dispatch.Callbacks.Find | utils.c:602-610 | The dispatch loop finds the first channel that receives on the message's handle, or none. |
| Driver.Image.OpenName | shm.c:1265 | An open from the channel calls, seen on the world of both cores. |
| Driver.Image.CloseHandle | shm.c:1282 | A close from the channel calls, seen on the world of both cores. |
| Driver.Image.TakeNumber | shm.c:1246 | Takes the channel's lock number, or fails when it is taken. |
| Driver.Image.DropNumber | shm.c:1269 | Gives it back. |
| Driver.Image.Enter | shm.c:1298 | Registers the new channel at the end of the list. |
| Driver.Image.FinishChannel | shm.c:1277-1298 | The second half of a create does exactly Channels.Finish. |
| Driver.Image.CreateChannel | shm.c:1230-1303 | mpi_create_channel on objects does exactly Channels.Create, including every failure. |
| Driver.Image.Withdraw | shm.c:1322 | Takes the channel off the list. |
| Driver.Image.DestroyChannel | shm.c:1317-1329 | mpi_destroy_channel on objects does exactly Channels.Destroy. |
| Delivery.SendHolds | mpi_shm.c:185-200 | A device write leaves its bytes, cut to m_send_length, as the one fragment of its channel's entry. |
| Delivery.ChannelSendIs | shm.c:1331-1354 | mpi_channel_send on a device's channel: more bytes than the entry holds are refused with -1, nothing stored and no message; anything else is stored whole, the peer's register holds the handle, its interrupt is due, and its next get hands those bytes out. |
| Delivery.CallbackTakes | mpi_shm.c:280-304 | The callback copies out exactly the waiting fragment and records its length. |
| Delivery.DispatchFinds | utils.c:600-610 | The interrupt finds the channel, and the device, the message is for. |
| Delivery.DevicesWired | mpi_shm.c:345-346 | Devices whose channels both cores created are wired crosswise. |
| Delivery.WriteShows | mpi_shm.c:163-219 | A write goes on the peer's wire and nowhere else. |
| Delivery.InterruptShows | utils.c:588-618 | An interrupt moves what is on the wire to the box of the device it is for. |
| Delivery.UnclaimedMessage | utils.c:612-615 | A message that names no channel's handle takes its fragment away, if the peer holds that entry, and disturbs no device. |
| Delivery.ReadReturns | mpi_shm.c:134-160 | A read returns what is in its device's box, cut to the reader's length. |
| Delivery.ReadShows | mpi_shm.c:134-160 | And empties that box only. |
| Delivery.RunShows | mpi_shm.c:115-304 | Over every paced run the whole machinery does what wires and boxes do. |
| Delivery.ReadsLatestWrite | mpi_shm.c:134-147 | What dev_read on device i returns is nothing or, unless a newer write still waits, the prefix of the latest dev_write on the peer's device i, cut to m_send_length and the reader's length. |
| Delivery.Delivers | mpi_shm.c:185-200 | A write whose interrupt is taken is what the next read of that device returns, whatever the other devices do in between. |
| Devices.Messages.Write | utils.c:697-708 | A one-word register that keeps the latest message; slots from 4 on are refused. |
| Devices.Device.Callback | mpi_shm.c:280-304 | The callback on objects does exactly Delivery.Callback. |
| Devices.Device.Read | mpi_shm.c:134-160 | dev_read on objects does exactly Delivery.DevRead. |
| Devices.Device.ChannelSend | shm.c:1331-1354 | mpi_channel_send on objects does exactly Delivery.ChannelSend. |
| Devices.Device.Write | mpi_shm.c:163-219 | dev_write on objects does exactly Delivery.DevWrite; the count it returns is one more than it sent. |
| InitRace.InsideStep | shm.c:480-546 | Every access of the core inside keeps what it knows, the failures of the size check and of a heap's set-up and blocks outside the region included; one that found the flag set changes nothing shared. |
| InitRace.NegativeSize | shm.c:377-442 | A heap whose set-up returns a negative size has a pool of 2 GB or more, or sums that wrap. |
| InitRace.OutsideWrapped | shm.c:355-370 | A block that passes the size check but does not lie in the region behind the control area is a sign that a sum wraps. |
| InitRace.StampStep | shm.c:357-368 | Stamping one header overwrites no other block's. |
| InitRace.StepInv | shm.c:480-546 | Every step of either core keeps the invariant of the race, for every table and region the source's assertions admit. |
| InitRace.EndsWellExactly | shm.c:454-548 | However two cores race mod_init on zeroed memory: a core that ends succeeds if and only if the size check passes, no sum of the table wraps and no pool is 2 GB or more. A core leaves the region behind the control area only when a sum wraps. |
| InitRace.FailureLeavesBlank | shm.c:515-522 | For all other tables control area and registry stay as they were, at every step of both cores. |
| InitRace.RaceEnds | shm.c:454-548 | For the tables that succeed, however the two race: at most one core ever takes the first-time branch, and when both are done exactly one has, both have succeeded, and both map (order, number) to the same address in the region, where that block's header is stamped. |
| InitRace.StepGetsOn | shm.c:454-548 | Every step of a core that is neither done nor astray brings it nearer to its end, unless it waits for the lock. |
| InitRace.EveryRunEnds | shm.c:454-548 | For the tables that succeed, and for those that fail without a block outside the region, every run can be brought to the end of both cores; there the lock is free and both have succeeded, or both failed. |
| InitRace.OtherBuild | shm.c:488-500 | A core that finds the flag set by a build with another start order or number of pools fails, gives the lock back and has written nothing. |
| InitRace.SecondTouchesNothing | shm.c:484-502 | The other core leaves headers, control area and registry untouched at every step. |
| InitRace.NegativePool | shm.c:377 | A table that passes the size check, fits the region and is refused all the same, for the negative size of its only pool. |
| InitRace.ShippedSuffices | shm.c:23-37 | The compiled-in table and the region mpi.h:10-12 fixes succeed. |

## Left out

- Locks.SystemLocks.Lock: the spin of `system_lock` is a single test here, for a core that runs alone; spinning cores are in FillTest, TwoCores and LockOrder.
- Allocator.Allocator.Free: demands the order that `mod_free` asserts, since a violated assertion stops the kernel; HEADERS is part of `Mapped`.
- Allocator.Allocator.PointsToMapped: rests on HEADERS; what a pointer behind forged header bytes would free is not modelled.
- Setup.MemInit: tables whose sums wrap are excluded; `InitRace.EndsWellExactly` says how they end, as far as the headers lie in the region.
- Setup.CarveAll: the same.
- Setup.CarveOne: the same, so no pool of 4 GB or more.
- SharedMemory.Registry.CreateEntry: BIG is demanded.
- SharedMemory.Registry.Open: OWNER and BIG are demanded of creating opens; the other core's allocator is not an object of this model.
- SharedMemory.Registry.Close: OWNER is demanded of the last close.
- SharedMemory.Registry.Get: the `update != 0` mode, and a stale fragment that does not fit the new block (`Mailbox.StaleSlot` says when), are not modelled. `Lives.RunTold` derives the condition from FRESH.
- SharedMemory.Registry.SendOffset: a sum of length and offset that wraps is excluded; `Mailbox.ClipInBlock` says what it would do to the bounds.
- SharedMemory.Registry.GetOffset: the same, and the `update != 0` mode.
- TwoCores.CheckThenLock: calls of the get forms on handles the caller does not hold are excluded; `TwoCores.GetNeedsOwnBit` shows why.
- TwoCores.StepView: a step makes one write that an unlocked test of the other core can see; writes that only a lock holder reads go along with it.
- TwoCores.Refines: mod_malloc and mod_free count as part of one step each, with any grant allowed; SharedBlocks has the grants and frees of the owner's allocator.
- Answers.AcceptedCopies: an entry whose stale fragment does not fit its block is excluded, as in `SharedMemory.Registry.Get`.
- Lives.MailboxOfRun: FRESH is demanded of the run; `Mailbox.FreshIsExact` says why.
- SharedBlocks.RunKeeps: OWNER and BIG are demanded of the run; `Agreement.OwnerNeeded` and `Agreement.SmallTakesFirstClass` say why.
- Driver.Image.OpenName: OWNER and BIG are demanded, as in `SharedMemory.Registry.Open`.
- Driver.Image.CloseHandle: OWNER is demanded of a last close.
- Driver.Image.FinishChannel: OWNER and BIG are demanded of its second open and of taking back the first.
- Driver.Image.CreateChannel: OWNER and BIG are demanded of its opens; the callback is never null, and `kmalloc` fails by a parameter.
- Driver.Image.DestroyChannel: OWNER is demanded of its last closes.
- Devices.Device.Write: the timed wait that can turn the returned count into 0 is not modelled.
- Delivery.ReadsLatestWrite: a write to a core whose previous interrupt is still due is excluded, since the message register holds one word.
- InitRace.EndsWellExactly: both images are built with the same pool table of 15 pools, no lock number is taken before, and the region lies in the address space; what a core overwrites after its next block has left the region is not modelled.
- Agreement.RunAgrees: these runs are of whole opens and closes; `SharedBlocks.RunKeeps` has the interleavings, with the transfers.
- LockNumbers.TakenExactly: the two numbers the device driver takes later (mpi_shm.c:422-428), which channels 53 and 54 ask for, are not among those of set-up.
- The second core's set-up of its own lists while the first already has busy blocks is covered only by InitRace and by OWNER.
- Weak memory ordering and `mb()`: steps are sequentially consistent.
- Interrupts that preempt a lock holder: the interrupt handler takes the same lock through `mpi_shm_get`, which PROC excludes.
- Fairness of the spin: that a particular core gets a contended lock is not claimed. What is claimed is that some schedule ends every call, that every step but a spin is progress, and that someone can always make one.
- `mpi_shm_get_mem` and direct writes through it.
- The pending-write list, its timer, the semaphores, ioctl, poll, the timed wait and the return codes of interrupted waits in mpi_shm.c.
- The default channel, the test handle and the statistics functions, which add no new behaviour.
- Device and class registration, user copies that fail, reset, UART, register dumps and the memory display commands.
- Accesses below the level of a field: reading or writing one field is one step, and so is one memcpy.
