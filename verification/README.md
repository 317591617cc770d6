# A verified model of SCC's core components

The SystemC Components library (SCC) gives virtual platforms their memories, their address routers, the fast
path around them (the direct memory interface, DMI), the link between two simulators, and a set of utilities.
This project models the parts of it that hold the most state, branching and arithmetic, and proves what they
promise. Every `.dfy` file is one component, and `dafny verify dfyconfig.toml` checks them all.

## The components

* `words.dfy`: machine words and options. 64-bit addition and subtraction are written out with their wrap-around.
* `range_lut.dfy` (`RangeTables`): the range lookup table, a sorted map of end points that stands for a set of ranges.
* `memory.dfy` (`Paging`, `Memories`): the paged store and the memory target, with host buffers mapped over its pages,
  byte enables, accesses that cross pages, and DMI windows.
* `router.dfy` (`Routers`): the address router, for accesses, for DMI windows and for their invalidation.
* `dmi_mgr.dfy` (`DmiManagers`): the cache of DMI windows in front of the router, and the theorem that reads and writes
  through it are reads and writes of flat byte maps.
* `spsc_queue.dfy` (`SpscQueues`): the lock-free ring between two threads; every load and store of a shared index and of a
  slot is a step of its own.
* `thread_syncronizer.dfy` (`ThreadSyncronizers`): running functions in another thread, over that queue.
* `thread_pool.dfy` (`ThreadPools`): the worker pool, with `finish` and `cancel_pending`.
* `tcp4tlm.dfy` (`Tcp4tlm`): the time protocol between a leading client simulator and the server that follows it.
* `ihex.dfy` (`IntelHex`): the Intel HEX reader and writer.
* `glob.dfy` (`Globs`): globs, the regular expressions they are translated to, and what both mean.
* `bits.dfy` (`Bits`), `ring_buffer.dfy` (`RingBuffers`), `pool_allocator.dfy` (`PoolAllocators`): the bit tricks, the
  circular buffer and the pool allocator.
* `plic.dfy` (`Plics`): the interrupt controller of the simple system.

Objects whose methods update their fields are classes, loops are loops, and each such method is proved against a
specification function; the properties are then proved of those functions. Concurrent components are step systems: a
run is any interleaving of enabled steps. What the outside decides (random fill bytes, the byte that `is.get` leaves in
place at the end of a file, the callback of the HEX reader, when the kernel moves time on) is a parameter.

## The main results

* **DMI is transparent.** For any run of reads and writes through the manager, over windows or over the bus, the
  targets end up as flat byte maps do, and every read whose first byte is stored by then returns what those hold
  (`DmiMgr.Run`). Each access must be one that the transport path answers from a flat memory, and the window that is
  asked for with it, if its target offers any, must be refused or good (`Allowed`, `Cacheable`). Nothing is asked of
  host ranges and targets that the accesses do not meet, nor of windows that are never asked for. When a window is good
  is stated exactly: what is left of it after clipping meets no host range, or is a host range inside the memory, and
  stays with its target (`GrantMirrors`).
* **The lookup table** is a linear scan of its ranges over every run of additions and removals. After any additions that
  were accepted, no two ranges overlap if and only if `validate` accepts and no addition ended on an address that was
  stored already (`DisjointIffValid`).
* **Intel HEX** files are read as their bytes say: `FileParsed` gives the calls of any text of good records, each at the
  address that its own bytes and the last address record before it make. Reading and writing round trip, and every error in what `dump` writes that replaces a hex digit by one of another value is
  detected. Which letters beyond f pass in place of a digit, and when that moves the address, is stated exactly.
* **The ring refines a bounded queue** under every interleaving, no blocking push is lost, only a try gives up, and the executor built on it runs what it accepted, in
  order, once.
* **The interrupt controller**, when it is served, serves exactly the eligible interrupts in their order of precedence, if
  and only if its claim register is up to date at the start.
* **The pool** starts tasks in the order of submission, loses and doubles no work, and `finish` returns exactly if nothing cancels its stop tokens.
* **The time protocol** is conservative, runs the client's accesses in order, each at the client's time of making it, and
  answers every one; left to itself the server catches up with the last time stamp sent.
* **The glob translation** means the glob on every string but for line ends; when a whole glob is free of that exception is
  stated exactly.

## Findings

Where the code does not do what its comments or its callers expect, the model follows the code, and these statements say
what happens.

* An access that acquires a window reports `ERROR` although it has succeeded: `operator|=` on `dmi_status` takes its left
  operand by value, so the result is never collected (dmi_mgr.h:36; `DmiMgr.Read`, `DmiMgr.Write`, `BusStatus`).
* An access to a cached address that does not fit into its window acquires the window again, and `addEntry` throws
  (`DmiMgr.Acquire`, `OverlapIsCovered`).
* A window that ends at the last 64-bit address is never hit but by an access that ends there as well: the guard's
  `end + 1` wraps to zero (`GuardIsHit`). An access that wraps around, or ends at the last address when its window does
  not, passes the guard and leaves the window (`GuardAdmitsOutside`).
* The range test of the memory, `adr + len > SIZE`, wraps around: exactly the accesses that end behind 2^64, at an address
  inside the memory, are admitted although they lie outside (`AdmitsOutside`).
* A page's DMI window can lie over a mapped host range, and then shows other bytes than the transport path; a host range
  that reaches over the end of the memory does so too (`GrantFaithful` says when neither happens). With a host range at
  0x100 a read at 0x0 fetches the window of the page, and the next read, at 0x100, hits it and returns the byte of the page
  beneath (`PageOverHost`).
* `get_direct_mem_ptr` takes the base of a remapped default target off the address, `b_transport` does not
  (`DirectAgrees`).
* `transfer_length` comes out as the whole length whether or not the access ends inside the host range (memory.h:303), so an
  access that runs over the end of a host range is copied beyond the buffer; the model asks callers not to (`Handles`).
* An access that starts on a page and runs into a host range works on the page bytes beneath that range. A write then leaves
  what the host shows as it is, and is a write to the flat memory if and only if the data out of sight is what the host
  shows anyway (`AroundIsOverlay`), so for all data if and only if it meets no host range (`AlwaysOverlay`). A read returns
  the flat memory if and only if the page beneath holds what the host shows (`ShadowedRead`).
* `map_host_memory` accepts a range that overlaps a mapped one if only its first address is no end point. Looking an address
  up then goes by the end point that comes first, at the address or behind it (`LookupAfterAdd`). The addresses of the old
  range in front of a new one that starts inside it are not found any more, but for its first (`OverlappedLookup`), nor are
  those of the new range in front of an old one that starts inside that (`NewLookup`). All addresses of all ranges are
  found if and only if the new range overlaps none (`ExactIffApart`).
* Reads ignore byte enables (`HandleOperation`).
* `map_host_memory` and `unmap_host_memory` invalidate no window: a window still mirrors the transport path afterwards if
  and only if the range mapped or unmapped does not meet it (`MappingOutdates`).
* A range that a target invalidates is moved to the initiator's addresses end by end. If it wraps around on the way, the
  initiator is told a range that meets none of its windows (`InvalidationHits`). A target that invalidates everything is
  such a case, unless its offset and the initiator's base are equal (`EverythingWraps`): for a remapped range at B and an
  initiator base of zero, 0 to 2^64 - 1 becomes B to B - 1.
* A read whose first page has not been allocated returns random bytes for the whole access, even if its second page has
  been (`HandleOperation`).
* `addEntry` overwrites whatever is stored at the last address of the new range, and `validate` may then not notice the
  overlap: it accepts overlapping ranges only after an addition that ended on a stored address (`DisjointIffValid`). A
  table that has been validated before the addition it misleads on only if that is a single byte (`SwallowedByte`,
  `ValidateAddition`). Without that, three ranges of several bytes will do: 5 to 10, 0 to 5 and 6 to 10 are all accepted, and
  so is the table (`SwallowedRange`). A router validates just once, at the end of elaboration (router.h:437), unless its
  constructor is told otherwise (router.h:65). An addition of no bytes at address zero is accepted as a single byte
  (`NoBytes`).
* `removeEntry`, and with it `unmap_host_memory`, tests for the end of the map only after it has looked at the entry
  (range_lut.h:152): for a value that is not present, and on an empty table, it reads past the end.
* `hex2dec` accepts the letters g to z as digits, of the values 16 to 35. In place of a digit of a good line such a letter
  passes if and only if the digit is not one of the record type and the byte that the check sum reads stays the same
  (`LetterVerdict`): its low four bits are the digit, and those it shifts into the digit before are set there already
  (`LetterKeepsByte`). The address then moves for a letter in its third digit alone, if it sets bits of the second
  (`LetterMoves`): a g for the third digit of 0000 has the data called back at 0x100 (`WrongAddress`).
* `parse` refuses a text of good lines that lacks the newline at its end: the failed read there leaves the last check-sum
  digit in place, and that is an error between records (`NoFinalNewline`).
* The threshold and priority registers of the interrupt controller have no write callback, only claim_complete has
  (plic.cpp:75-83): the claim may be out of date after such a write, and `ThresholdWrite` and `PriorityWrite` say exactly
  when it is not. An interrupt that comes in below the threshold is not served when the threshold is lowered
  (`MissedInterrupt`). A completion written for an interrupt of 32 or more shifts by that much, which is undefined
  (`CompleteWrite`).
* `finish` on a pool without workers returns at once and leaves pending work behind (`NoWorkersNoWork`). `cancel_pending`
  while `finish` waits takes the stop tokens away, and `finish` then blocks for ever (`FinishReturns`).
* Iterating over an empty ring buffer goes once round all its slots, and for a capacity of zero reads behind its storage
  (`ToVector`).
* The glob comment (ities.h:469) says that `.` is matched only by `**`; a class matches it as well, if it lists it or is
  negated and does not (`DelimiterMatched`). `**` does not cross the end of a line (`LineEndsStopDoubleStar`,
  `AgreesEverywhere`).

## Model

| member | source | states |
|---|---|---|
| DmiManagers.DmiMgr.Run | src/components/scc/dmi_mgr.h:85-197 | over any run of allowed accesses, each with random bytes of its own, the targets equal the flat byte maps of the reference, and each read returns what those hold whenever its target has all of its bytes and the first one is stored at that point; that is so for every byte stored from the start, written earlier, on a page written earlier, or on a page of an earlier access to a target that offers windows |
| DmiManagers.ReadAgrees | src/components/scc/dmi_mgr.h:85-136 | along any history of answered accesses, a read whose first byte is stored when its turn comes returns the bytes of the flat reference run so far |
| DmiManagers.KnownIsStored | src/components/scc/dmi_mgr.h:112-131 | which bytes are stored when their turn comes: by an earlier write of the same page, or by the window an earlier access acquired |
| DmiManagers.FlatsAgree | src/components/scc/dmi_mgr.h:146-197 | along any history the flat memories are those of the reference, whichever way the accesses went |
| DmiManagers.DmiMgr.Read | src/components/scc/dmi_mgr.h:85-136 | the bytes read, the state afterwards, and the exact status: a hit, a failed transport, a plain success, an error although a window was acquired, or an exception |
| DmiManagers.DmiMgr.Write | src/components/scc/dmi_mgr.h:146-197 | the bytes written, that the caller's data stays, and the exact status |
| DmiManagers.DmiMgr.StatusTerms | src/components/scc/dmi_mgr.h:85-136 | what a hit, an offered window and a refused one are, on which the status depends |
| DmiManagers.DmiMgr.Acquire | src/components/scc/dmi_mgr.h:112-131 | the window asked for is cached in both tables, or adding it throws, exactly if it wraps around or the address is in a cached window already; no byte of any target changes |
| DmiManagers.DmiMgr.Remember | src/components/scc/dmi_mgr.h:116-129 | both tables hold the same windows before and after, and the first refused entry throws |
| DmiManagers.GrantMirrors | src/components/scc/router.h:309-343 | a window that the router returns and that does not wrap around mirrors the transport path, each of its addresses decoding to the byte behind its pointer, if and only if the target's window, as far as it is not clipped, is inside the memory and its pages meet no host range, and it stays with the target |
| DmiManagers.SameWindow | src/components/scc/dmi_mgr.h:85-136 | two windows that share an address have the same bounds |
| DmiManagers.OverlapIsCovered | src/components/scc/dmi_mgr.h:112-131 | a new window overlaps a cached one if and only if the accessed address was cached, and then has its bounds |
| DmiManagers.GuardIsHit | src/components/scc/dmi_mgr.h:86-87 | the guard on the looked-up entry holds if and only if a cached window, not ending at the last address there is, has all of the access, or the access ends at the last address and starts in a cached window |
| DmiManagers.GuardAdmitsOutside | src/components/scc/dmi_mgr.h:87 | an access that starts in the window and goes beyond it passes the guard if and only if it wraps around or ends at the last address there is |
| DmiManagers.HitFits | src/components/scc/dmi_mgr.h:85-97 | an allowed access that passes the guard stays inside its window |
| DmiManagers.PageOverHost | src/components/scc/dmi_mgr.h:85-131 | two reads, the second of which hits and returns a byte of the page under a host range, while the flat memory shows the host's |
| DmiManagers.MirrorRun | src/components/scc/dmi_mgr.h:88-89 | the bytes behind a window's pointer are the ones that the transport path would reach, for the whole access |
| DmiManagers.StaysStored | src/components/scc/memory.h:236-339 | along a run no byte that has been stored is lost |
| DmiManagers.MappingOutdates | src/components/scc/memory.h:130-148 | a cached window mirrors the transport path after a host range has been mapped or unmapped if and only if that range does not meet it |
| DmiManagers.Assemble | src/components/scc/dmi_mgr.h:69-71 | a manager in front of a router with one memory, for which every access inside the range and of at most a page is allowed |
| Routers.Tables.WindowDecodes | src/components/scc/router.h:309-343 | a translated window decodes back to its target, byte for byte, if and only if the target is remapped, or its own window starts inside the range, or the target is also the default target and no other range lies between the window's start and its own; for accesses that hit a range |
| Routers.Tables.DefaultDecodes | src/components/scc/router.h:309-343 | the same for an access that hits no range: the window decodes to the default target if and only if it meets no range of another target |
| Routers.Tables.ClipKeeps | src/components/scc/router.h:331-339 | clipping a window to the range never cuts off the accessed address |
| Routers.Tables.Lands | src/components/scc/router.h:282-308 | where an access goes, in numbers modulo 2^64: to the target whose range has the address, minus its base if remapped, else to the default target unchanged, else nowhere |
| Routers.Tables.DirectAgrees | src/components/scc/router.h:282-343 | the DMI path and the transport path decode an address alike if and only if it hits a range or the default target's base is not taken off |
| Routers.Tables.BackInverts | src/components/scc/router.h:396-408 | the translation of invalidated addresses is the inverse of the decoding |
| Routers.Tables.InvalidationHits | src/components/scc/router.h:396-408 | for every range s..e that a target invalidates: what an initiator is told overlaps its window, which itself does not wrap around, if and only if s..e overlapped it at the target and does not wrap around on the way back |
| Routers.Tables.EverythingWraps | src/components/scc/router.h:396-408 | invalidating the whole address space does not wrap around if and only if the target's offset equals the initiator's base |
| Routers.Tables.OverlapSurvives | src/components/scc/router.h:396-408 | a range of a target that stays in one piece overlaps another one seen from the initiator if and only if it does at the target and the other one stays in one piece too |
| Routers.Router.SetTargetRange | src/components/scc/router.h:249-257 | the decoder finds the target of every address after a range has been added |
| Routers.Router.BTransport | src/components/scc/router.h:282-308 | exactly the target of the range performs the access, no other memory changes, and a missing target is an address error that changes nothing; the other errors are those of the target, an access beyond its end or one wider than its stream |
| Routers.Router.GetDirectMemPtr | src/components/scc/router.h:309-343 | the target's window clipped and translated; no byte of any target changes |
| Routers.Router.InvalidateDirectMemPtr | src/components/scc/router.h:396-408 | every initiator is told the range as it sees it, in order |
| Memories.Memory.HandleOperation | src/components/scc/memory.h:236-339 | refused payloads change nothing and say why; an accepted access that starts in a host range reads or overlays the flat memory; one that starts on a page reads or overlays the pages, across their border, and what it writes beneath host ranges does not show. Byte by byte: a write stores the k-th byte if there are no byte enables or the k-th of them is 0xff, and leaves every other byte as it is; reads ignore byte enables and return the bytes reached, or random ones |
| Memories.Memory.HandleFlat | src/components/scc/memory.h:236-339 | an accepted access that runs into no host range takes the flat memory and the caller's bytes to exactly the overlay with the enabled bytes, or to the bytes of the flat memory |
| Memories.ActsBytewise | src/components/scc/memory.h:264-337 | each byte after an access, in the flat memory, in the pages and in the caller's buffer, with byte enables as the numbers they are |
| Memories.CellIs | src/components/scc/memory.h:263-314 | where the byte of an address is stored: in the host buffer of its range, or at the remainder in the page of the quotient |
| Memories.AroundIsOverlay | src/components/scc/memory.h:310-336 | a write that starts on a page and runs into host ranges is the write to the flat memory if and only if the enabled data out of sight equals what the hosts show |
| Memories.AlwaysOverlay | src/components/scc/memory.h:310-336 | that is so for all data if and only if the access meets no host range |
| Memories.Memory.ShadowedRead | src/components/scc/memory.h:278-296 | a read that starts on a page returns the flat memory if and only if the pages hold what the hosts above them show |
| Memories.AdmitsOutside | src/components/scc/memory.h:247 | the range test admits an access outside the memory if and only if it wraps around to an address inside |
| Memories.Memory.GrantFaithful | src/components/scc/memory.h:341-363 | a granted window shows the bytes of the transport path at each of its addresses if and only if a host range ends inside the memory, or a page meets no host range |
| Memories.GrantIs | src/components/scc/memory.h:341-363 | exactly which window is granted: the host range that has the address, or its page up to the end of the memory |
| Memories.Memory.HandleDmi | src/components/scc/memory.h:341-363 | the window granted, and that granting it changes no byte |
| Memories.Memory.MapHostMemory | src/components/scc/memory.h:130-136 | a range is mapped, or refused if and only if it wraps around or starts on an end of a mapped one; what is in the table then, and that it stands for one host range more if that overlaps no other |
| Memories.Memory.UnmapHostMemory | src/components/scc/memory.h:144-148 | exactly the range of that base and size is unmapped |
| Memories.UnmapUndoesMap | src/components/scc/memory.h:130-148 | unmapping undoes mapping |
| Memories.Memory.MapGains | src/components/scc/memory.h:130-136 | mapping adds exactly one range and leaves the pages and the other ranges as they are |
| Memories.Memory.UnmapGains | src/components/scc/memory.h:144-148 | unmapping takes exactly the range of that base and size away |
| Memories.Memory.CellInjective | src/components/scc/memory.h:153-160 | no two addresses share a byte of storage |
| Memories.Memory.CellsAfterMap | src/components/scc/memory.h:130-136 | a mapped range moves its own addresses to the host buffer and no other |
| Memories.Memory.CellsAfterUnmap | src/components/scc/memory.h:144-148 | unmapping brings the pages beneath back as they were |
| Memories.SparseArray.Page | src/common/util/sparse_array.h:80-85 | a page is allocated zero-filled on first use, and kept |
| Words.WrapIsModulo | src/components/scc/router.h:282-408 | the address arithmetic of all components is addition and subtraction modulo 2^64 |
| RangeTables.LookupIsScan | src/common/util/range_lut.h:89-94 | the lookup by lower bound is a linear scan of the ranges, at every address |
| RangeTables.GetEntryIsScan | src/common/util/range_lut.h:89-94 | getEntry finds the range of every address, and the null entry where there is none, on an empty table as well |
| RangeTables.ValidateIffDisjoint | src/common/util/range_lut.h:169-194 | for any stored ranges without a shared end point validate accepts if and only if no two overlap |
| RangeTables.ValidateAddition | src/common/util/range_lut.h:135-194 | an addition to a valid table passes validate if and only if all it meets is a single byte at its own last address, which it replaces |
| RangeTables.ValidatedRun | src/common/util/range_lut.h:135-194 | a table validated after every addition is exact for the ranges that survive, and these are all of them if and only if no two overlap |
| RangeTables.DisjointIffValid | src/common/util/range_lut.h:135-194 | after any accepted additions no two of all the ranges overlap if and only if validate accepts and none of them ended on an address stored before it |
| RangeTables.SwallowedRange | src/common/util/range_lut.h:135-194 | three overlapping additions of several bytes each that are all accepted and that validate does not notice |
| RangeTables.ValidateAfterRun | src/common/util/range_lut.h:135-194 | after accepted additions that end on new addresses validate accepts if and only if no two of all the ranges overlap |
| RangeTables.SwallowedByte | src/common/util/range_lut.h:135-194 | two overlapping additions that are both accepted and that validate does not notice |
| RangeTables.OutcomeIs | src/common/util/range_lut.h:135-148 | an addition is refused as mapped already if and only if its first address is stored for another than the null entry, and otherwise as a wrap-around if and only if its end is not behind its start |
| RangeTables.NoBytes | src/common/util/range_lut.h:135-148 | an addition of no bytes is accepted only at address zero, where it is entered as a single byte |
| RangeTables.LookupAfterAdd | src/common/util/range_lut.h:89-148 | what is found at any address after any addition to any table |
| RangeTables.OverlappedLookup | src/common/util/range_lut.h:89-148 | after an accepted addition, overlapping or not: what is found at each address of a range that was there before |
| RangeTables.NewLookup | src/common/util/range_lut.h:89-148 | and at every address of none of those |
| RangeTables.ExactIffApart | src/common/util/range_lut.h:89-148 | all addresses of all ranges are found if and only if the addition overlaps none |
| RangeTables.RunTracks | src/common/util/range_lut.h:79-194 | over any run of disjoint additions and of removals the table, its size, validate and getEntry stay those of the set of ranges |
| RangeTables.AddDistinct | src/common/util/range_lut.h:135-148 | adding a range with new end points keeps the table exact |
| RangeTables.RemoveLowest | src/common/util/range_lut.h:150-167 | removing a value drops its lowest range and nothing else |
| RangeTables.RangeLut.AddEntry | src/common/util/range_lut.h:135-148 | what is stored, and when the addition is refused as mapped already or as wrapping around |
| RangeTables.RangeLut.RemoveEntry | src/common/util/range_lut.h:150-167 | the first entry of that value and its partner are erased; an absent value changes nothing |
| RangeTables.RangeLut.Validate | src/common/util/range_lut.h:169-194 | the loop computes the scan that the statements about validate speak of |
| SpscQueues.StepInv | src/common/rigtorp/SPSCQueue.h:97-179 | every step keeps the invariant: exactly the slots of the elements in the ring are live, and the cached indices are behind |
| SpscQueues.StepRefines | src/common/rigtorp/SPSCQueue.h:97-171 | every step is a step of a bounded queue or leaves it alone; a push gives up if and only if it loads the read index while the queue is full, front finds nothing if and only if it loads the write index while it is empty |
| SpscQueues.BlockingPasses | src/common/rigtorp/SPSCQueue.h:97-110 | under every interleaving the elements of the blocking pushes that were begun are, in order, among those gone through, but for at most one in hand |
| SpscQueues.OnlyTriesGiveUp | src/common/rigtorp/SPSCQueue.h:97-130 | a push that loads the read index gives up if and only if it is a try and the queue holds as many elements as it was asked to |
| SpscQueues.NeverStuck | src/common/rigtorp/SPSCQueue.h:97-171 | each thread can always go on: a slot is free when it is constructed and live when it is destroyed, pop's assertion holds, and the head that front handed out stays |
| SpscQueues.RunGrows | src/common/rigtorp/SPSCQueue.h:97-171 | runs begin with an empty queue, and go on with any step enabled at their end |
| SpscQueues.SlotIsRemainder | src/common/rigtorp/SPSCQueue.h:97-171 | the slot that the k-th element is constructed in, found by stepping and starting over at the end, is k modulo the capacity |
| SpscQueues.SizeCounts | src/common/rigtorp/SPSCQueue.h:173-179 | size and empty, computed from the two indices, count the elements |
| SpscQueues.RunInOrder | src/common/rigtorp/SPSCQueue.h:97-171 | under every interleaving what is popped are the first of the elements pushed, in order, and the bound is kept |
| SpscQueues.RunRefines | src/common/rigtorp/SPSCQueue.h:56-179 | under every interleaving the ring is the bounded queue that the stores of its two indices make it |
| ThreadSyncronizers.RunInOrder | src/common/util/thread_syncronizer.h:89-134 | under every interleaving the functions that have run are the first of the accepted ones, in order, none twice; all others are in hand, queued or refused, and none is refused while the executor runs |
| ThreadSyncronizers.PolledOrRefused | src/common/util/thread_syncronizer.h:89-105 | a submission that is polled is refused if and only if the destructor has run by then; the queue takes one if and only if it has room, and it is polled again if not |
| ThreadSyncronizers.CallsEnd | src/common/util/thread_syncronizer.h:109-134 | a call that comes back without running anything has found the queue empty, in execute, or, in executeNext, the shutdown begun or ready cleared; and then it does come back |
| ThreadSyncronizers.FoundIsRun | src/common/util/thread_syncronizer.h:124-134 | once executeNext has found a function, its front succeeds with the same one and its pop removes that |
| ThreadPools.FinishRunsAll | src/common/util/thread_pool.h:46-106 | when finish returns all workers have stopped and everything queued before it has run or been cancelled, each as often as it was queued, unless there were no workers |
| ThreadPools.StartedInOrder | src/common/util/thread_pool.h:46-106 | in every run the tasks started, followed by those in the queue, are the ones submitted, in that order, without those cancelled before they were started |
| ThreadPools.AllSurvive | src/common/util/thread_pool.h:46-76 | without a cancellation these are all that were submitted |
| ThreadPools.OneWorkerInOrder | src/common/util/thread_pool.h:91-106 | with one worker at a time tasks are also run to their end in that order |
| ThreadPools.WorkersKnown | src/common/util/thread_pool.h:60-87 | the workers are those started and not joined since, and the pool is finishing from finish to its return |
| ThreadPools.FinishReturns | src/common/util/thread_pool.h:73-106 | while finish waits, some run of steps lets it return if and only if none of its stop tokens has been cancelled |
| ThreadPools.WorkersStop | src/common/util/thread_pool.h:91-106 | with every token in place the workers alone bring finish to its return |
| ThreadPools.CancelLoses | src/common/util/thread_pool.h:73-76 | cancelling while finish waits loses one token for each worker alive |
| ThreadPools.NeverStuck | src/common/util/thread_pool.h:78-106 | while finish waits with no token lost it can return or a worker can go on |
| ThreadPools.MeasureDecreases | src/common/util/thread_pool.h:91-106 | every step of a worker brings the pool nearer to rest |
| ThreadPools.NoWorkersNoWork | src/common/util/thread_pool.h:78-87 | without workers finish returns at once and leaves all pending work |
| Tcp4tlm.Conservative | src/components/scc/tcp4tlm_server.cpp:151-333 | in every run the server's time stays behind the largest stamp received and that behind the client's time; the operations run are the client's accesses in order, each once, at the client's time of making it, and at most the last one is missing |
| Tcp4tlm.CaughtUp | src/components/scc/tcp4tlm_server.cpp:151-333 | in every run, when nothing can happen but what the client starts, the server's time is the largest stamp that the client has sent, with an access or without |
| Tcp4tlm.CatchesUp | src/components/scc/tcp4tlm_server.cpp:151-333 | from every reachable state steps that the client does not start take the server there |
| Tcp4tlm.Answers | src/components/scc/tcp4tlm_client.cpp:144-218 | a response that the client receives is that of the awaited access, which has been run |
| Tcp4tlm.NoDeadlock | src/components/scc/tcp4tlm_server.cpp:151-333 | while the client awaits a response some other step is enabled |
| Tcp4tlm.MeasureDecreases | src/components/scc/tcp4tlm_server.cpp:151-333 | every step that the client does not start makes a measure smaller |
| Tcp4tlm.AnswerComes | src/components/scc/tcp4tlm_client.cpp:144-218 | from any reachable state an awaited access is answered: steps short of that are bounded in number, and there is always a next one |
| IntelHex.RoundTrip | src/common/util/ihex.cpp:78-232 | parsing what dump wrote succeeds and calls back with exactly the dumped bytes at their addresses modulo 2^32, in records that cross no 64 KiB boundary and are as long as asked for, but for the last one and those that end at such a boundary |
| IntelHex.DumpErrorDetected | src/common/util/ihex.cpp:78-232 | one hex digit of the output of dump replaced by one of another value makes parse return false, wherever it is |
| IntelHex.ErrorDetected | src/common/util/ihex.cpp:78-188 | the same for any text of well-formed records |
| IntelHex.FileCalls | src/common/util/ihex.cpp:78-188 | the calls of any text of good records up to the first one refused: data and address of each, from the bytes of the records, with 16 times the word of the last type 02 record or 65536 times that of the last type 04 record before it, whichever is later |
| IntelHex.FileParsed | src/common/util/ihex.cpp:78-188 | the same for the whole stream that parse reads; it returns true if and only if the callback takes all calls |
| IntelHex.BetweenRecords | src/common/util/ihex.cpp:93-123 | between records line ends are passed over, a NUL ends the file with true, and anything but a colon makes parse return false |
| IntelHex.DigitValues | src/common/util/ihex.cpp:35-44 | the values of the sixteen digits in both cases, of the letters g to z, and of everything else |
| IntelHex.LetterVerdict | src/common/util/ihex.cpp:35-188 | a letter g to z in place of any digit of a good line makes parse return false, with a callback that accepts, unless the digit is not in the record type and the byte read is the same; and only then |
| IntelHex.LetterUnnoticed | src/common/util/ihex.cpp:35-188 | for every callback: a line with such a letter is refused, or performs its record at the address its digits shift together |
| IntelHex.LetterKeepsByte | src/common/util/ihex.cpp:35-44 | the byte is the same if and only if the low four bits of the letter are the digit and, in a low digit, its high bits are set in the high one |
| IntelHex.LetterMoves | src/common/util/ihex.cpp:35-188 | such a letter moves the address only as its third digit, by the bits it adds to the second |
| IntelHex.WrongAddress | src/common/util/ihex.cpp:35-188 | any data written for address zero, with a g for the third digit of that, is called back at 0x100 without complaint |
| IntelHex.DigitsVerdict | src/common/util/ihex.cpp:35-188 | a line of digits, letters beyond f among them, is taken if and only if its bytes as read are a well-formed record and its type is in plain digits |
| IntelHex.NoFinalNewline | src/common/util/ihex.cpp:78-188 | any text of good lines without its last newline makes parse return false |
| IntelHex.LineVerdict | src/common/util/ihex.cpp:78-188 | a line of hex digits is taken if and only if it is a well-formed record, and otherwise parse returns false |
| IntelHex.Parse | src/common/util/ihex.cpp:78-188 | the loop computes the state machine that the statements speak of, including the last character seen twice |
| IntelHex.Dump | src/common/util/ihex.cpp:190-232 | the text written, record by record; a record length outside 1..255 is refused |
| IntelHex.ChunksAreFull | src/common/util/ihex.cpp:199-228 | the records of a dump are as long as asked for, but for the last one and those that end at a 64 KiB boundary |
| IntelHex.AddressLines | src/common/util/ihex.cpp:199-224 | a data record has an address record of type 04 in front if and only if it is the first or lies in another 64 KiB than the one before |
| IntelHex.LastLine | src/common/util/ihex.cpp:230-231 | every dump ends with the line :00000001FF |
| IntelHex.WriteRecord | src/common/util/ihex.cpp:54-74 | one line is appended, with the check sum that makes its bytes sum to zero |
| IntelHex.IhexChecksum | src/common/util/ihex.cpp:46-52 | the two's complement of the sum of the bytes |
| IntelHex.AppendIsOr | src/common/util/ihex.cpp:78-188 | shifting in a digit is the bitwise or, for the letters beyond f as well, which reach into the digit before |
| Globs.GlobPreserved | src/common/util/ities.h:466-547 | the emitted expression can be parsed and matches a string if and only if the glob does with double stars kept within lines; with no newline or carriage return in sight, if and only if the glob does |
| Globs.SameMeaning | src/common/util/ities.h:466-547 | the same for the terms of every glob on every string |
| Globs.AgreesEverywhere | src/common/util/ities.h:466-547 | expression and glob agree on all strings if and only if the glob has no double star or can match nothing at all |
| Globs.LineEndsStopDoubleStar | src/common/util/ities.h:466-547 | a glob and a string on which they differ |
| Globs.TermsParsed | src/common/util/ities.h:477-547 | the emitted text parses to the terms of the glob's tokens, escapes included |
| Globs.GlobTranslated | src/common/util/ities.h:477-547 | the translation goes token by token |
| Globs.GlobToRegex | src/common/util/ities.h:477-547 | the loop computes that translation for every string |
| Globs.TrimSplits | src/common/util/ities.h:336-365 | a glob is whitespace, its trimmed text and whitespace again, with none at either end of the trimmed text |
| Globs.TokenMatches | src/common/util/ities.h:466-476 | what each token of a glob matches, character by character |
| Globs.PartsMatch | src/common/util/ities.h:466-476 | a glob matches what can be split into what its parts match |
| Globs.DelimiterMatched | src/common/util/ities.h:466-476 | exactly which tokens match the hierarchy delimiter |
| Bits.BitCountIsOnes | src/common/util/ities.h:221-234 | the trick with octal masks counts the set bits of every 32-bit word |
| Bits.LeftmostOne | src/common/util/ities.h:215-219 | smearing isolates the highest set bit, for every width that is a power of two |
| Bits.FindFirstIsLowest | src/common/util/ities.h:209-214 | the multiplication and the table find the lowest set bit of every non-zero 32-bit word |
| RingBuffers.RingBuffer.PushBack | src/common/util/ring_buffer.h:229-237 | the element is appended; a full buffer refuses it with an overflow error and keeps its contents |
| RingBuffers.RingBuffer.PopFront | src/common/util/ring_buffer.h:268-273 | the oldest element is removed, or the call fails on an empty buffer, which stays as it is |
| RingBuffers.RingBuffer.Resize | src/common/util/ring_buffer.h:323-337 | all elements survive a change of capacity, in order, or it is refused and nothing changes |
| RingBuffers.RingBuffer.Equals | src/common/util/ring_buffer.h:204-215 | equality is equal capacity and equal contents, wherever they lie |
| RingBuffers.WrapIsRemainder | src/common/util/ring_buffer.h:229-273 | the wrapping of indices that the other statements use is the remainder by the capacity |
| RingBuffers.RingBuffer.IncrementVisits | src/common/util/ring_buffer.h:344-350 | incrementing goes from element to element and from the last to the end, even when the buffer is full, and stays there |
| RingBuffers.RingBuffer.DecrementUndoes | src/common/util/ring_buffer.h:353-361 | decrementing undoes incrementing, goes from element to element, and stays at the first |
| RingBuffers.RingBuffer.ToVector | src/common/util/ring_buffer.h:221-226 | the conversion gives the contents if there are any, once round the slots if not, and reads out of bounds, with no result, if and only if the capacity is zero |
| PoolAllocators.Run | src/common/util/pool_allocator.h:245-279 | over any run of allocations and frees no block is held twice, and free and held blocks add up to the capacity |
| PoolAllocators.PoolAllocator.Allocate | src/common/util/pool_allocator.h:245-255 | a block that nobody holds, filled with zeroes, from the free list unless that is empty |
| PoolAllocators.PoolAllocator.Free | src/common/util/pool_allocator.h:257-264 | the block is free again, and nothing else changes |
| PoolAllocators.PoolAllocator.CountersAddUp | src/common/util/pool_allocator.h:273-279 | free and live blocks add up to the capacity |
| Plics.Plic.HandlePendingInt | examples/simple_system/plic.cpp:128-162 | the claimed interrupt is pending, enabled by priority, and precedes every other one; none is claimed if there is none |
| Plics.ClaimIs | examples/simple_system/plic.cpp:128-162 | the same in numbers: pending, of 1 to 31, with a priority above the threshold, the highest there is, and the lowest id of those |
| Plics.Plic.GlobalIntPort | examples/simple_system/plic.cpp:110-126 | exactly the enabled inputs become pending, and then the best is claimed |
| Plics.Plic.CompleteWrite | examples/simple_system/plic.cpp:75-83 | completing clears that interrupt and claims the next, from any state; an id of 32 or more may clear any pending bit or none |
| Plics.Plic.Drain | examples/simple_system/plic.cpp:75-164 | from any state, serving until nothing can be claimed serves exactly the eligible interrupts in the order of precedence if and only if the claim register was right at the start |
| Plics.Plic.DrainSettled | examples/simple_system/plic.cpp:75-164 | with a right claim it serves every eligible interrupt, each once, in the order of precedence, and no other |
| Plics.ThresholdWrite | examples/simple_system/plic.cpp:75-83 | exactly when the claim is still right after a write to the threshold |
| Plics.PriorityWrite | examples/simple_system/plic.cpp:75-83 | exactly when the claim is still right after a write to a priority |
| Plics.MissedInterrupt | examples/simple_system/plic.cpp:75-162 | an interrupt that stays eligible while nothing is claimed and the line is low |

## Left out

- RangeTables.RangeLut.RemoveEntry: for an absent value the source dereferences the end of the map before it tests for it; the model answers false there.
- Memories.Memory.UnmapHostMemory: inherits that read past the end for a range that is not mapped; the model answers false.
- Memories.Memory.MapHostMemory: asks for an accepted buffer that holds the range and backs no other; accesses to a memory whose host ranges overlap are not modelled, only what the lookup returns (OverlappedLookup, NewLookup).
- RangeTables.RunTracks: removals are of values that are present, and additions have at least one byte; NoBytes says what the others do.
- DmiManagers.DmiMgr.Run: windows grant reading and writing or nothing, as the memory does; read-only and write-only windows, latencies, the quantum keeper and cycle counts are not modelled.
- DmiManagers.DmiMgr.Read: asks of the access what Run does (`Allowed`): it does not wrap around, ends with its window if it ends at the last address there is, is an access to the flat memory (HandleFlat), and its window, if its target offers any, is refused or mirrors the transport path. GrantMirrors and DirectAgrees say when it does, PageOverHost shows what happens when it does not.
- DmiManagers.DmiMgr.Write: asks the same.
- DmiManagers.DmiMgr.Remember: windows that grant reading alone or writing alone are not modelled.
- Routers.Router.SetTargetRange: asks for a target's first range, overlapping no other; a second one would overwrite the base and size that the first is decoded with, and DisjointIffValid says what validate makes of overlaps.
- DmiManagers.DmiMgr.Acquire: asks that a window that is asked for is refused or good and has the accessed address (`Cacheable`); a default target's window that is clipped in front of the address is left out.
- SpscQueues.RunRefines: loads and stores are sequentially consistent; that acquire and release suffice is not modelled, nor is the overflow test on the capacity.
- ThreadPools.FinishReturns: start and a second finish during a finish are not modelled; the source does not guard them.
- Tcp4tlm.AnswerComes: the target does not wait, channels are reliable queues, and accesses are blocking; connection setup, signal operations, debug accesses and wall-clock mode are not modelled.
- Globs.GlobPreserved: the regular expressions are the part of ECMAScript's that is emitted, with full matches; globs that cannot be written as tokens (an unclosed class, a trailing backslash) are translated but given no meaning.
- Bits.LeftmostOne: words are unsigned; signed operands of leftmost_one and the other bit helpers are not modelled.
- PoolAllocators.PoolAllocator.Free: asks that the block is live, as the source does without looking; thread-local instances and the STL adaptor are not modelled.
- Memories.Memory.HandleOperation: asks that an admitted access does not wrap around and ends within the host range that it starts in, or within the second page, because the source copies past the host buffer and past the second page otherwise (`Handles`); transport delays and the SystemC kernel's reports are not modelled, the response status stands for the latter.
- Memories.Memory.HandleFlat: asks also that the access runs into no host range; HandleOperation says what happens if it does.
- DmiManagers.MappingOutdates: is about one mapping between accesses; Run itself is about runs without any.
- nu_router, the AT router and the split and join adapters: they share the decoder that is modelled.
- Other components (tracing, logging, configuration, register generation, performance counters, sockets and modules): they wrap library calls and hold little logic of their own.
