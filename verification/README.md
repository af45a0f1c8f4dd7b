# Models of the Vanta kernel

Vanta is an x86_64 kernel. This project models its memory managers, timer wheel, page cache, TCP endpoint, packet
formats and initramfs archive in Dafny, and proves that each agrees with something much simpler.

| area | files | the simple thing it agrees with |
|---|---|---|
| buddy frame allocator | `BuddyBlocks`, `BuddyLists`, `Buddy`, `BuddyFrames` | a set of free frames and a map of live blocks; the lists hold exactly the maximal aligned blocks |
| timer wheel | `TimerBag`, `TimerLevels`, `Timers` | a bag of timers, each returned on the tick that is its target |
| copy-on-write, one call at a time | `CowTables`, `CowMemory` | address spaces whose pages are all copied at each fork |
| copy-on-write, interleaved | `CowThreads`, `CowHolders`, `CowInterleavings`, `CowSteps`, `CowSafety` | no mapped frame is ever free, and a writable entry is a frame's only mapping while its lock is free |
| page cache | `PageFile`, `PageEntries`, `PageCaching` | one plain byte array per file |
| TCP | `Tcp`, `TcpClose`, `TcpConnection`, `TcpStream` | a stream of bytes; a connection that always closes |
| virtual memory areas and mmap | `VmaMap`, `MemoryMap`, `Mmap` | a function from addresses to what they see; first fit |
| swap | `SwapEntries`, `SwapTables`, `SwapClock`, `Swap` | memory that is never paged |
| kernel heap | `HeapCells`, `Heap` | disjoint live allocations |
| packets | `NetChecksum`, `NetFrames`, `NetBuild` | sums modulo 65535; fields and payload |
| initramfs | `Cpio`, `CpioFiles` | a list of named entries |

Each class mirrors the state the kernel updates in place and is proved against a value: `View()`, `Spaces()`, `files`,
`Memory()`, `Value()`. Results over whole runs are methods named `Execute`, which call the modelled operations one after
another, and lemmas over `Run` where the steps are interleaved.

Integers are unbounded, so widths are written out: 16-bit reference counts saturate, 32-bit sequence numbers wrap, and
64-bit additions that the kernel checks are compared with the largest value. Page-table entries are 64-bit words.
Things the kernel asks the machine for are parameters: whether a page-table page can be allocated, how many disk writes
succeed, whether the page allocator is willing.

## Model

| member | source | states |
|---|---|---|
| `BuddyBlocks.CanonicalForm` | rust/kernel/src/memory.rs:125-298 | A set of free blocks is aligned, disjoint and has no two free buddies if and only if it is exactly the set of maximal aligned blocks (order at most 10) of the frames it covers. |
| `BuddyBlocks.CanonicalIsUnique` | rust/kernel/src/memory.rs:192-217 | Two canonical sets of blocks over the same frames are equal, so the free lists are determined by the set of free frames. |
| `BuddyBlocks.JoinIsCanonical` | rust/kernel/src/memory.rs:125-162 | Joining the blocks of a new range to a canonical set is canonical if and only if no aligned block lies across the old and the new frames. |
| `BuddyFrames.SeparatedRangeKeepsCanonical` | rust/kernel/src/memory.rs:125-162 | A range with an unfree frame on each side has no such block, so separated usable ranges keep the lists canonical. |
| `BuddyFrames.AdjacentRangesCanStraddle` | rust/kernel/src/memory.rs:125-162 | Separation is needed: frames 2 and 3 added as two ranges leave two blocks that could be one. |
| `BuddyFrames.AdjacentRangesHideARun` | rust/kernel/src/memory.rs:125-190 | Adding frame 2, then frame 3, then asking for two frames fails, although frames 2 and 3 are an aligned free run. |
| `BuddyFrames.BuddyAllocator.constructor` | rust/kernel/src/memory.rs:41-79 | An empty allocator satisfies the invariant and is canonical. |
| `BuddyFrames.BuddyAllocator.ListPush` | rust/kernel/src/memory.rs:81-95 | The doubly linked lists stay consistent with each other and the flags; one block is added to the free blocks; an untracked frame changes nothing. |
| `BuddyFrames.BuddyAllocator.ListRemove` | rust/kernel/src/memory.rs:97-117 | The links around a member at any position are repaired; exactly that block leaves the free blocks. |
| `BuddyFrames.BuddyAllocator.ListPop` | rust/kernel/src/memory.rs:119-123 | The head of a list is taken off it; nothing comes back and nothing changes exactly when no block of the order is free. |
| `BuddyFrames.BuddyAllocator.AllocOrder` | rust/kernel/src/memory.rs:164-190 | Fails exactly when no list of the order or above has a block, which on canonical lists is exactly when no aligned run of that size is free; otherwise hands out part of a smallest sufficient block and keeps the lists canonical. |
| `BuddyFrames.BuddyAllocator.FreeOrder` | rust/kernel/src/memory.rs:192-217 | Merging upwards adds exactly the freed frames, keeps the counters and leaves no two free buddies. |
| `BuddyFrames.BuddyAllocator.Free` | rust/kernel/src/memory.rs:223-248 | Succeeds exactly on the page-aligned address of a live block head; a shared block loses one reference, the last owner returns the frames; a refused call changes nothing. |
| `BuddyFrames.BuddyAllocator.Reserve` | rust/kernel/src/memory.rs:250-298 | Succeeds exactly on a tracked page address; afterwards the frame is free if and only if it was free and already carried a RESERVED mark. |
| `BuddyFrames.BuddyAllocator.RefInc` | rust/kernel/src/memory.rs:308-312 | Adds an owner to any tracked frame, saturating at 65535, and nothing else; an untracked frame changes nothing; the invariant survives exactly when the frame is untracked or heads a live block. |
| `BuddyFrames.BuddyAllocator.AddRange` | rust/kernel/src/memory.rs:125-162 | Adds exactly the whole tracked frames of the range above the null page, counts them, and keeps the lists canonical if and only if no block lies across old and new frames. |
| `BuddyFrames.BuddyAllocator.ViewIsSound` | rust/kernel/src/memory.rs:81-298 | In every valid state live blocks are aligned, disjoint and free of free frames, and free plus live frames are the usable frames. |
| `BuddyFrames.BuddyAllocator.AllocThenFree` | rust/kernel/src/memory.rs:164-248 | On canonical lists, freeing a block just allocated gives back the very same set of free blocks and the same view. |
| `BuddyFrames.BuddyAllocator.Execute` | rust/kernel/src/memory.rs:164-312 | Any list of alloc, free, reserve and share calls keeps the lists canonical, keeps the usable frames the same frames, and keeps free frames plus live block sizes equal to the usable count. |
| `BuddyFrames.ReserveCanMissAFreeFrame` | rust/kernel/src/memory.rs:250-298 | From any live block of two or more frames with one owner: reserving its second frame, freeing the block and reserving again returns true and leaves the frame free. |
| `Buddy.RunConserves` | rust/kernel/src/memory.rs:164-312 | Over every run of the plain view no frame is lost or handed out twice. |
| `Buddy.AllocThenFree` | rust/kernel/src/memory.rs:164-248 | The same round trip on the plain view: an allocation and its free give back the same pool. |
| `TimerBag.TimerExactness` | rust/kernel/src/timer.rs:97-151 | In every run whose timers are set for later ticks, a timer is returned or cancelled at most once, returned only on the call that makes the clock equal its target, and returned exactly once by then unless cancelled. |
| `TimerBag.RunConserves` | rust/kernel/src/timer.rs:70-220 | For every entry, initially pending plus added is fired plus cancelled plus still pending. |
| `TimerLevels.CascadeGoesDown` | rust/kernel/src/timer.rs:78-128 | An entry of a slot whose unit begins is refiled at a strictly lower level. |
| `Timers.TimerWheel.constructor` | rust/kernel/src/timer.rs:58-68 | A new wheel is valid and empty. |
| `Timers.TimerWheel.Reinsert` | rust/kernel/src/timer.rs:78-95 | Files an entry by its distance; only the level it belongs to changes, and levels in order stay in order. |
| `Timers.TimerWheel.AddTimer` | rust/kernel/src/timer.rs:70-76 | Adds one entry under the next identifier, which wraps at 2^64. |
| `Timers.TimerWheel.AdvanceTick` | rust/kernel/src/timer.rs:97-151 | Through all cascades and the overflow list, returns exactly the entries due at the new tick; in particular nothing is left over in the expiring slot. |
| `Timers.TimerWheel.CancelSleepTimer` | rust/kernel/src/timer.rs:153-178 | Removes one entry of the thread if there is one, anywhere in the wheel, and reports its target. |
| `Timers.TimerWheel.CancelITimer` | rust/kernel/src/timer.rs:180-220 | The same for a process's interval timer, reporting interval and time left. |
| `Timers.TimerWheel.AddSleepTimer` | rust/kernel/src/timer.rs:409-414 | A sleep of any length, even zero, ends after the current tick. |
| `Timers.TimerWheel.SetITimer` | rust/kernel/src/timer.rs:421-429 | Replaces the process's timer and reports the one replaced. |
| `Timers.TimerWheel.Execute` | rust/kernel/src/timer.rs:70-220 | Any list of adds, cancels and ticks on the wheel itself is a run of the bag, so timer exactness holds of what its ticks return. |
| `CowMemory.Machine.ResolveCow` | rust/kernel/src/paging.rs:293-354 | Faults exactly on entries that are not copy-on-write; otherwise the entry becomes writable or memory is out, and no address space reads anything different. |
| `CowMemory.Machine.StoreByte` | rust/kernel/src/interrupts.rs:223-231 | A store through the write-fault handler changes one byte of one page of one address space and nothing else, and faults exactly where the program may not write. |
| `CowMemory.Machine.ForkSpace` | rust/kernel/src/paging.rs:205-276 | Succeeds exactly when the child's root table and every page of the parent can be mapped; the child then reads what the parent reads; a fork that fails midway restores every reference count and what every space reads. |
| `CowMemory.Machine.CancelFork` | rust/kernel/src/paging.rs:252-266 | The undo loop gives back exactly the references taken. |
| `CowMemory.Machine.UnmapPage` | rust/kernel/src/process.rs:311-330 | Removes one page of one space and gives its reference back. |
| `CowMemory.Machine.ExitSpace` | rust/kernel/src/process.rs:354-391 | Gives back every page of a space; all others read the same. |
| `CowMemory.Machine.Execute` | rust/kernel/src/paging.rs:205-354 | Any run of creations, zero-page faults, forks, stores, unmaps and exits is what it would be if each fork copied every page at once. |
| `CowSafety.RunIsSafe` | rust/kernel/src/paging.rs:252-354 | At every moment of every interleaving of copy-on-write faults, forks (also failing ones), stores and locked unmaps, no mapped frame has a zero count, and while a frame's lock is free a writable entry is its only mapping. |
| `CowSafety.StepKeeps` | rust/kernel/src/paging.rs:205-354 | Each of the 26 kinds of step keeps the invariant that counts are the numbers of holders. |
| `CowSafety.StepReads` | rust/kernel/src/paging.rs:284-354 | A step changes what a mapped page reads only if it is a store, and then only that page and byte. |
| `CowSafety.ForkCopies` | rust/kernel/src/paging.rs:205-276 | When a fork ends, the child has its parent's pages, frame for frame, and none of them writable. |
| `CowSafety.CountsNeverUnderflow` | rust/kernel/src/paging.rs:252-354 | Under the invariant no step is ever held up by a missing frame or a count at zero. |
| `CowSafety.ReachesContended` | rust/kernel/src/paging.rs:205-354 | A concrete run of thirteen steps from the initial state to two spaces contending for one frame. |
| `CowSafety.UnlockedFreeIsUnsafe` | rust/kernel/src/process.rs:198-207 | At the end of that run, a free without the frame's lock lets the other space give the last reference back while it still maps the frame. |
| `PageCaching.PageCache.Read` | rust/kernel/src/page_cache.rs:77-232 | Through hits, misses and readahead, returns exactly the bytes of the visible file and leaves the rest of the buffer alone; fails exactly when more pages of the range are missing than frames are free, whatever is read ahead. |
| `PageCaching.PageCache.Write` | rust/kernel/src/page_cache.rs:238-330 | Overlays the bytes on the visible file; fails exactly when it needs more new frames than are free, at a place fixed before the call, and is then still consistent if and only if what was written lies within a cached length. |
| `PageEntries.OutAtIsUnique` | rust/kernel/src/page_cache.rs:238-330 | The place where a write runs out of frames is determined by the state before the write. |
| `PageCaching.PageCache.FlushInode` | rust/kernel/src/page_cache.rs:402-465 | On success no page of the file is dirty and the disk holds the visible file up to its length; batching equals writing the dirty pages one at a time; what a reader sees never changes. |
| `PageCaching.PageCache.WriteBatches` | rust/kernel/src/page_cache.rs:424-461 | The loop over runs of up to sixteen consecutive pages always advances and writes each page once. |
| `PageCaching.PageCache.Truncate` | rust/kernel/src/page_cache.rs:491-536 | Cuts or zero-extends the visible file, with the page at the cut cleared beyond it. |
| `PageCaching.PageCache.InvalidateInode` | rust/kernel/src/page_cache.rs:539-564 | Nothing of the file stays cached and only its disk copy shows. |
| `PageCaching.PageCache.EvictCleanPages` | rust/kernel/src/page_cache.rs:608-640 | Evicts exactly as many clean pages as asked or there are, none with a larger sequence number than a clean page that stays, and changes no visible file. |
| `PageCaching.PageCache.Execute` | rust/kernel/src/page_cache.rs:77-640 | Any sequence of reads, writes, flushes, evictions and truncates gives what plain byte arrays would, for as long as frames are found. |
| `Tcp.TcpSocket.HandleSegment` | rust/kernel/src/network.rs:656-803 | The in-place state machine is the reaction function the theorems are about, with its replies. |
| `Tcp.TcpSocket.Transmit` | rust/kernel/src/network.rs:1306-1350 | The chunking loop sends the data whole and in order in segments of 1 to 1400 bytes, numbered consecutively modulo 2^32. |
| `Tcp.TcpSocket.Send` | rust/kernel/src/network.rs:1239-1350 | Which states send, which report a broken pipe and which are not connected. |
| `Tcp.TcpSocket.SendTo` | rust/kernel/src/network.rs:1416-1512 | The same for `sendto`, which also sends after the peer has closed. |
| `Tcp.TcpSocket.Recv` | rust/kernel/src/network.rs:1527-1570 | What is returned followed by what stays is what was buffered; end of stream and reset only on an empty buffer. |
| `Tcp.TcpSocket.Close` | rust/kernel/src/network.rs:1696-1772 | A FIN goes out exactly from the open states; which sockets leave the table at once. |
| `Tcp.ChunksAreTheData` | rust/kernel/src/network.rs:1306-1350 | The data of the chunks of a write, joined, is the write. |
| `TcpClose.CloseCompletes` | rust/kernel/src/network.rs:656-803 | Whatever was sent and whoever closed first, after both have closed the deliveries left are bounded, and when none is left both sides are in TIME-WAIT or closed (section 3.6 of RFC 9293). |
| `TcpClose.RunKeeps` | rust/kernel/src/network.rs:656-803 | In every run what is on the way continues the receiver's count up to the sender's, and a FIN is last. |
| `TcpClose.DeliverShrinks` | rust/kernel/src/network.rs:656-803 | Every delivery makes the weight of what is on the way smaller, replies included. |
| `TcpConnection.Connection.Act` | rust/kernel/src/network.rs:656-803 | The methods of two real sockets joined by channels take exactly the steps of the close theorem. |
| `TcpConnection.Connection.Drain` | rust/kernel/src/network.rs:656-803 | Delivering in any order ends, with both sockets in TIME-WAIT or closed. |
| `TcpConnection.Connection.Converse` | rust/kernel/src/network.rs:1696-1772 | Any exchange by two sockets followed by both closing ends so. |
| `TcpStream.StreamIsPrefix` | rust/kernel/src/network.rs:656-703 | Under loss, duplication and reordering, below 2^32 bytes and before any FIN, bytes returned followed by bytes buffered are the sender's stream up to the acknowledgement number. |
| `VmaMap.FindIsExact` | rust/kernel/src/vma.rs:134-142 | The lookup finds an area exactly when one covers the address, and it is the one seen there. |
| `VmaMap.PredecessorIsExact` | rust/kernel/src/vma.rs:155-176 | Looking at the last area that begins below the end of a range decides exactly whether any area meets it. |
| `VmaMap.ProtectMovesTheFile` | rust/kernel/src/vma.rs:228-262 | After protecting the middle page of a three-page file mapping, its first byte sees the first byte of the file. |
| `MemoryMap.ProcessMemoryMap.InsertVma` | rust/kernel/src/vma.rs:155-176 | Accepts exactly the aligned, non-empty areas that meet no other; the new area shows where it lies and nothing else changes. |
| `MemoryMap.ProcessMemoryMap.RemoveVmaRange` | rust/kernel/src/vma.rs:177-226 | Nothing is left inside the range; every address outside sees the same flags and the same file or device place; the areas met are reported. |
| `MemoryMap.ProcessMemoryMap.ProtectVmaRange` | rust/kernel/src/vma.rs:228-262 | Coverage is the same; inside the range the access bits are the new ones and no other bit is lost; the place an address sees is the same if and only if its area is anonymous or its piece begins where the area began. |
| `MemoryMap.ProcessMemoryMap.GrowStackTo` | rust/kernel/src/vma.rs:283-312 | Grows exactly when the page is above the limit and everything up to the stack is free; whenever `can_grow_stack` says yes it succeeds and covers the address. |
| `MemoryMap.ProcessMemoryMap.ScanFrom` | rust/kernel/src/vma.rs:314-357 | The linear scan finds the least free base or there is none; it overflows exactly when it finds none and steps over everything between the limit and the largest address. |
| `MemoryMap.ProcessMemoryMap.FindFreeMmapRegion` | rust/kernel/src/vma.rs:314-357 | Which of the two searches answers, and the exact condition under which neither does. |
| `MemoryMap.LowAreasDoNotOvershoot` | rust/kernel/src/vma.rs:314-357 | With areas and limit below 2^63, an overflowing search was for more bytes than lie below the limit, so the second search would have failed too. |
| `MemoryMap.OvershootHidesFallback` | rust/kernel/src/vma.rs:314-357 | An area reaching the top of the address space makes the search fail although the second search would have succeeded. |
| `Mmap.JumpFrom` | rust/kernel/src/process.rs:232-250 | The predecessor-jumping search ends and returns the least page-aligned free base below the limit, or there is none. |
| `Mmap.Compare` | rust/kernel/src/vma.rs:314-357 | From equal starts and limits the jumping search and the linear scan give the same answer. |
| `Mmap.Process.Choose` | rust/kernel/src/process.rs:210-254 | A usable hint is taken as it is; otherwise the base is the first fit from the cursor, which moves past it. |
| `Mmap.Process.MmapBacking` | rust/kernel/src/process.rs:178-279 | Fails in the listed cases only: once a base is chosen the area is always accepted; the new area shows where it lies and every other address sees what it saw. |
| `Mmap.Process.Munmap` | rust/kernel/src/process.rs:311-330 | Nothing is left in the rounded range and nothing changes outside. |
| `SwapEntries.OutDecodes` | rust/kernel/src/paging.rs:414-416 | The word written on page-out is not present, carries the slot in its twenty slot bits and keeps the write, user and no-execute bits. |
| `SwapEntries.InDecodes` | rust/kernel/src/paging.rs:380-381 | The word written on page-in is present, names the new frame and has the permissions the entry carried. |
| `SwapEntries.NumberFits` | rust/kernel/src/paging.rs:369-381 | Numbers of slots and frames are read back from the bits they are written to. |
| `SwapEntries.FlagsSurvive` | rust/kernel/src/paging.rs:380-416 | Going out and coming back restores all flags of an entry if and only if it had none beyond present and the three permissions; an uncached mapping comes back cached. |
| `Swap.Swapper.AllocSlot` | rust/kernel/src/swap.rs:70-80 | Takes the lowest free slot, or all slots are in use. |
| `Swap.Swapper.FreeSlot` | rust/kernel/src/swap.rs:82-93 | Gives back exactly that slot; twice or out of range does nothing; the count of used slots stays right. |
| `Swap.Swapper.WritePageToDisk` | rust/kernel/src/swap.rs:158-170 | Succeeds exactly when the disk takes all eight sectors, and the slot then holds the page; in every case only sectors of the slot change. |
| `Swap.Swapper.ReadPageFromDisk` | rust/kernel/src/swap.rs:172-184 | Succeeds exactly when the disk gives all eight sectors, and then gives back the page the slot holds. |
| `Swap.Swapper.SwapPageOut` | rust/kernel/src/paging.rs:398-429 | Succeeds exactly on a present page that the disk takes: its word becomes the slot encoding and its frame is free. Otherwise no entry or frame changes and every page reads the same, however many sectors were written. |
| `Swap.Swapper.ResolveSwappedPage` | rust/kernel/src/paging.rs:358-394 | When it is not out, when memory is out and when the disk fails, each exactly; otherwise a page comes back with its bytes and permissions and exactly its slot is freed. A failing call leaves words, free frames and slots as they were. |
| `Swap.Swapper.PageOut` | rust/kernel/src/swap.rs:261-270 | Fails exactly when the page is not present, no slot is free or the disk fails; every failing exit gives the slot back. |
| `Swap.Swapper.Unmap` | rust/kernel/src/paging.rs:484-508 | Unmapping a page that is out gives its slot back; set bits and swapped entries stay in bijection. |
| `Swap.Swapper.DemandPage` | rust/kernel/src/vma.rs:415-440 | A zero page is mapped exactly when the entry is not present and a frame is free; over an entry that is out, its slot is lost. |
| `Swap.Swapper.HandleFault` | rust/kernel/src/interrupts.rs:233-244 | How a fault ends, by the state before it: the page comes back, a zero page appears (over a page that is out exactly when the disk refuses the read), or the program is killed and nothing it can see changes. |
| `Swap.Swapper.TrackPage` | rust/kernel/src/swap.rs:95-114 | Adds a page at most once, if there is room; the count is the number of occupied entries. |
| `Swap.Swapper.UntrackPage` | rust/kernel/src/swap.rs:116-127 | Removes exactly that page. |
| `Swap.Swapper.CheckAndClearAccessed` | rust/kernel/src/paging.rs:432-452 | Reports use, and clears only the accessed bit of only that entry. |
| `Swap.Swapper.FindVictim` | rust/kernel/src/swap.rs:212-257 | Within two laps a victim is found exactly when some tracked page is present and not copy-on-write; it was in use at entry only if all such pages were. |
| `Swap.Swapper.EvictPageClock` | rust/kernel/src/swap.rs:190-259 | A victim is chosen exactly when there are a free slot and such a page, and the call succeeds exactly when there is a victim and the disk takes it; what every page reads stays the same; a failing call keeps no slot, and a victim the disk refuses stays resident and untracked. |
| `Swap.Swapper.Execute` | rust/kernel/src/paging.rs:358-508 | Any run of stores, loads, page-outs, evictions and unmaps, on a disk that may refuse any sector, is what memory that is never paged would do, bytes and permission bits alike, except for accesses that end on a zero page; on a disk that refuses no read those are new pages only, and no slot is ever lost. |
| `Swap.RefusedReadLosesThePage` | rust/kernel/src/interrupts.rs:233-244 | A byte is stored, its page goes out, the disk refuses to read it, and the next load gives zeros, with the slot in use and no entry to name it. |
| `Heap.OrderIsLeast` | rust/kernel/src/heap.rs:228-229 | The order computed for a direct allocation is the least that holds its pages. |
| `Heap.ExpIsEnough` | rust/kernel/src/heap.rs:211-236 | Every allocation is at least as large as its size and its alignment. |
| `Heap.KernelHeap.AllocFrames` | rust/kernel/src/heap.rs:226-232 | The page allocator as the heap sees it: an aligned block within memory that meets none in use, failing only when unwilling or when there is none. |
| `Heap.KernelHeap.CacheAlloc` | rust/kernel/src/heap.rs:81-118 | Recycles, carves or starts a page; fails exactly when there is no recycled object, no room in the current page and no page. |
| `Heap.KernelHeap.CacheFree` | rust/kernel/src/heap.rs:120-132 | The freed object heads its class's list through the link written into it, and only it stops being live. |
| `Heap.KernelHeap.Alloc` | rust/kernel/src/heap.rs:202-243 | Null exactly when the heap is not initialized or there is nothing for the request; otherwise one new live allocation; allocated minus freed stays what the live allocations take. |
| `Heap.KernelHeap.Dealloc` | rust/kernel/src/heap.rs:245-284 | With the layout of the allocation, exactly that allocation stops being live. |
| `Heap.KernelHeap.Store` | rust/kernel/src/heap.rs:120-132 | An owner writing into a live allocation disturbs nothing the heap keeps, free-list links included. |
| `Heap.KernelHeap.LiveIsSafe` | rust/kernel/src/heap.rs:81-285 | Any two live allocations are disjoint and aligned as asked, and no live object is on a free list. |
| `NetChecksum.ValidMeans` | rust/kernel/src/net.rs:812-875 | The folded sum is accepted exactly for positive multiples of 65535 (section 1 of RFC 1071). |
| `NetChecksum.AddOnesComplementSum` | rust/kernel/src/net.rs:858-868 | The loop adds the big-endian words, an odd last byte as a high half. |
| `NetChecksum.FoldOnesComplementSum` | rust/kernel/src/net.rs:870-875 | The loop folds carries until the sum fits 16 bits. |
| `NetFrames.EthernetRoundTrip` | rust/kernel/src/net.rs:124-157 | An Ethernet header is read back. |
| `NetFrames.Ipv4RoundTrip` | rust/kernel/src/net.rs:260-350 | An IPv4 header with its checksum is accepted and read back (section 3.1 of RFC 791). |
| `NetBuild.BuildIpv4Packet` | rust/kernel/src/net.rs:312-346 | Filling the header in place, checksum last, makes the packet the round trips are about. |
| `NetBuild.BuildUdpFrame` | rust/kernel/src/net.rs:502-533 | The same for UDP, with a zero checksum written as 65535. |
| `NetBuild.BuildTcpFrame` | rust/kernel/src/net.rs:637-677 | The same for TCP. |
| `NetBuild.UdpFrameRoundTrip` | rust/kernel/src/net.rs:471-533 | Every address, port and payload that fits comes back through Ethernet, IPv4 and UDP. |
| `NetBuild.TcpFrameRoundTrip` | rust/kernel/src/net.rs:597-677 | Every header field and payload that fits comes back through Ethernet, IPv4 and TCP (section 3.1 of RFC 9293). |
| `NetBuild.ChangedWordIsDetected` | rust/kernel/src/net.rs:812-875 | Any one word changed to a value not congruent to it modulo 65535 makes a valid checksum invalid. |
| `NetBuild.ChangedTcpIsRejected` | rust/kernel/src/net.rs:597-635 | A TCP segment changed so is not accepted. |
| `NetBuild.ChangedIpv4IsRejected` | rust/kernel/src/net.rs:260-310 | An IPv4 packet with any header word changed so is accepted if and only if the word is the first, it gives version 4 and a header length that fits, and the bytes between the old and the new header end balance the change. |
| `NetBuild.ChangedUdpIsRejected` | rust/kernel/src/net.rs:471-500 | Any accepted UDP datagram with a checksum, changed so, is accepted if and only if the word is the length and what moving the end gains balances the change, or the checksum became zero, or the change lies past what is summed. |
| `NetBuild.ShortenedUnnoticed` | rust/kernel/src/net.rs:471-500 | A datagram, as the builder makes it, whose payload is lost without notice when its length word is changed. |
| `NetBuild.ReheadedUnnoticed` | rust/kernel/src/net.rs:260-310 | A packet, as the builder makes it, whose ports sum to 0xfeff: with first word 0x4600 it is still accepted, and the ports are taken for options and lost. |
| `Cpio.ParseArchive` | rust/kernel/src/fs.rs:128-211 | A printed archive parses to its entries when it is all there and is rejected as truncated when any of it is missing, whatever follows it. |
| `Cpio.RoundTrip` | rust/kernel/src/fs.rs:153-292 | Printing and parsing are inverse on entries with non-empty NUL-free names other than the trailer and sizes that fit 32 bits. |
| `Cpio.PrefixIsTruncated` | rust/kernel/src/fs.rs:128-211 | No strict prefix of an archive is accepted. |
| `CpioFiles.PutHex` | rust/kernel/src/fs.rs:246-254 | Writes the eight hexadecimal digits in place and nothing else. |
| `CpioFiles.CopyBytes` | rust/kernel/src/fs.rs:256-262 | Copies bytes in place and nothing else. |
| `CpioFiles.AppendEntry` | rust/kernel/src/fs.rs:264-292 | Writes one printed entry at the offset and returns the aligned end. |
| `CpioFiles.MakeArchive` | rust/kernel/src/fs.rs:264-292 | Appending entries and the trailer to a zeroed buffer of the right size makes their archive. |
| `CpioFiles.Entries.ParseHex` | rust/kernel/src/fs.rs:230-244 | Reads eight digits of either case, or says which is none. |
| `CpioFiles.Entries.Next` | rust/kernel/src/fs.rs:153-211 | The cursor takes exactly the step of the parser, with its errors. |
| `CpioFiles.Scan` | rust/kernel/src/fs.rs:128-144 | Counts the entries of the archive, or gives the parser's error. |
| `CpioFiles.FindBytes` | rust/kernel/src/fs.rs:114-126 | On any bytes at all, finds the first entry of the name before the archive ends or goes wrong, or gives the parser's error there. |
| `CpioFiles.WriteAndFind` | rust/kernel/src/fs.rs:114-292 | What is written into a buffer is counted and found again. |

## Findings

Places where the kernel does not do what it is for, each with the exact condition.

- **A stale RESERVED mark** (memory.rs:250-298). `reserve` on a frame inside a live block only marks it. Once the block is
  freed the frame is free and still marked, and a later `reserve` returns true without taking it. `Reserve` gives the
  condition: after a successful call the frame is free if and only if it was free and marked before.
  `ReserveCanMissAFreeFrame` is an instance.
- **Adjacent usable ranges** (memory.rs:125-162). Ranges added side by side leave mergeable blocks unmerged, and an
  allocation can then fail although an aligned run is free. `AddRange` and `JoinIsCanonical` give the condition: no
  aligned block lies across the old and the new frames. `AdjacentRangesHideARun` is an instance.
- **The fixed-address path of mmap frees without the frame's lock** (process.rs:198-207). `UnlockedFreeIsUnsafe` ends a
  run from the initial state with a mapped frame in the allocator. With the lock, `RunIsSafe` holds of every run.
- **mprotect and file offsets** (vma.rs:228-262). The middle and right pieces of a split area keep the backing of the
  whole, so an address in them sees another place of the file or device. `ProtectVmaRange` gives the condition: the area
  is anonymous or the piece begins where the area began. `ProtectMovesTheFile` is an instance.
- **A search that overshoots** (vma.rs:314-357). A candidate past the largest address makes `find_free_mmap_region` fail
  without its second search. `FindFreeMmapRegion` gives the condition, `OvershootHidesFallback` an instance on an area
  map, and `LowAreasDoNotOvershoot` shows that addresses below 2^63 rule it out for every length that could fit. Whether
  such an area can come about through mmap is not shown.
- **A write that runs out of frames** (page_cache.rs:238-330). The pages already written are dirty, but the length is not
  set, so the file is not the old one nor the longer one. `Write` gives the condition under which it still is a file.
- **UDP length** (net.rs:471-500). The length word is both summed and used as the end of what is summed, so one changed
  word can go unnoticed. `ChangedUdpIsRejected` gives the condition and `ShortenedUnnoticed` an instance.
- **IPv4 header length** (net.rs:260-310). The same holds of the first header word, which says how many bytes are summed.
  `ChangedIpv4IsRejected` gives the condition and `ReheadedUnnoticed` an instance.
- **A refused read loses a page** (interrupts.rs:233-244, paging.rs:375-378 and 468). When paging in fails, the fault
  handler goes on to map a zero page, and `map` refuses only present entries, so the entry that names the slot is written
  over. `HandleFault` gives the condition: a frame is free, an anonymous area allows the access and the disk refuses a
  sector. `RefusedReadLosesThePage` is an instance.
- **Swap loses cache attributes** (paging.rs:380 and 414). Only three flags are carried through the slot encoding, so an
  uncached mapping would come back cached. `FlagsSurvive` gives the condition; whether such a page is ever chosen for
  swap is not shown.

## Left out

- Hardware: port and memory-mapped I/O, CR3 and TLB, interrupts, virtio, the real-time clock; `phys_to_virt` is total.
- `memory.rs` `init`: carving the metadata arrays out of memory, and the locked wrappers around the allocator.
- `frame_ref_dec`, and freeing a block whose count has saturated; counts in the copy-on-write models are unbounded.
- Frame status bytes are records of order, ALLOCATED, FREE and RESERVED, not packed bytes.
- `get_itimer` and `rearm_itimer_entry`; periodic firing is not claimed.
- Fork together with swap, `protect` or shared mappings; the four-level table walk; pages are keyed by space and number.
- PageCaching.PageCache.EvictCleanPages: orders by sequence number, which a hit raises by one, so it is not strict LRU.
- PageCaching.PageCache.FlushInode: says nothing of the disk beyond the visible length, where whole pages are written.
- `get_or_fetch_frame`, `mark_dirty`, `flush_all` and the flusher; a filesystem is one flat byte array per file.
- The TCP handshake, listening sockets, timers and retransmission; reordering across a FIN.
- TcpStream.StreamIsPrefix: covers fewer than 2^32 bytes and no FIN or RST, since a FIN is taken without a sequence check.
- BuddyFrames.BuddyAllocator.AddRange: takes a range of frames that are neither free nor live; `init` passes disjoint ranges of the memory map.
- MemoryMap.ProcessMemoryMap.RemoveVmaRange: takes a page-aligned range with start at most end, as both callers pass; other ranges leave unaligned areas.
- MemoryMap.ProcessMemoryMap.ProtectVmaRange: takes a page-aligned range with start at most end, as its caller passes.
- Mmap.Process.Munmap: covers the areas, not the loop that unmaps and frees pages; the end of the range, which the source does not check, is not wrapped at 2^64.
- Mmap.Process.MmapBacking: covers the areas and the placement, not the mapping of pages; `brk` and demand faults on files.
- Swap slots: a 64-bit bitmap word is the set of its one bits; the low watermark that makes `alloc_frame` evict is not modelled.
- Swap.Swapper.Store: takes a store that a present entry allows, on a page of one owner; a fault meets the disk and the area its parameter says.
- Swap.Swapper.HandleFault: covers anonymous areas; stack growth and file mappings, and page-table pages running out, are not in it.
- Swap.Swapper.EvictPageClock: covers a call on an initialized manager that no other thread interrupts between choosing and writing the victim.
- Heap.KernelHeap.AllocFrames: stands for the buddy allocator; which free block it gives is left open.
- The dedicated object caches of `heap.rs`, whose object sizes are no powers of two.
- `normalize_path`, `make_initramfs` and the file-system front end; ARP, ICMP and DNS.
- Scheduler, system calls, VFS, tmpfs, procfs, devfs, shell, framebuffer, input and the user programs.
