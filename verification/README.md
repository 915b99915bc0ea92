# Verified models of the EtherCAT gateway's network core

This project models, in Dafny, the parts of the repository whose correctness rests on state that
is shared, cut into pieces or kept over unbounded runs, and proves what they promise.

- **First-fit heap** (`HeapBlocks.dfy`, `HeapEffects.dfy`, `HeapArena.dfy`): the heap build of
  lwIP's `mem.c`. `HeapBlocks` is the list of blocks and what malloc, free and trim do to it,
  `HeapEffects` what they do to the live ranges, which determine the list; `HeapArena` holds the
  headers in an array and updates them in place as the code does. The schedule given to
  `MemMalloc` lists the frees and trims that other contexts make in its unprotected windows; the
  empty schedule is the build with a mutex only. Alignment is 4, a header 8 bytes, the least
  payload 12 bytes; the arena has any aligned size up to 64000 bytes with 16-bit sizes.
- **Internet checksum** (`Checksum.dfy`): the three versions of `lwip_standard_chksum` and the
  functions over pbuf chains, all proved to be one ones'-complement value, on hosts of either byte
  order and buffers at any address.
- **select and event callbacks** (`Select.dfy`, `SelectEvents.dfy`, `SelectList.dfy`): each section
  under `SYS_ARCH_PROTECT` is one atomic step and any number of callers and callbacks interleave.
- **Descriptor lifetime** (`SocketTable.dfy`): `fd_used` and `fd_free_pending` in full-duplex mode.
- **netconn** (`Netconn.dfy`, `NetconnResults.dfy`, `TcpNetconn.dfy`): application messages and TCP
  callbacks in any order, as a state machine, as the results that the calls get, and as the object
  that they update. The build has full duplex but no core locking, send timeout or linger.
- **Writer** (`NetconnWrite.dfy`): `lwip_netconn_do_writemore` under
  `netconn_write_vectors_partly`, against any answers of TCP.
- **DNS resolver** (`DnsName.dfy`, `DnsMessage.dfy`, `DnsTable.dfy`, `DnsEffects.dfy`,
  `DnsAge.dfy`, `Resolver.dfy`): names on the wire, query and response packets, the tables with
  their timer, and the resolver that keeps them.
  IPv4 only, `LWIP_DNS_SECURE_NO_MULTIPLE_OUTSTANDING`, ids from the counter, default table sizes.
- **Host command protocol** (`HostProtocol.dfy`): the resynchronising frame parser, its printer and
  the connection that answers frames.
- **GPT phase controller** (`Gpt.dfy`): integer PI control with C's truncating division.

`Octets.dfy`, `Options.dfy` and `FiniteSets.dfy` hold what several of them share. Where an
algorithm works in place, a class or a method over arrays is proved equal to a function of the old
state, and the theorems are proved about that function over all runs. What each step does is also
said without that function, by its effect on what a caller sees. What an environment decides
(results of TCP calls, free send buffer, received bytes, other contexts, times) is a parameter or
an arbitrary choice.

`dafny verify dfyconfig.toml` checks the project.

## Where the code does not do what it promises

Each of these is a theorem with the exact condition; the code is modelled as it is.

- The assertion at `mem.c:790` fails when the block trimmed is the last one
  (`HeapCells.TrimAssertWitness`; `HeapArena.Heap.MemTrim` gives the exact condition).
- Algorithms 1 and 2 of the checksum are right up to 0x20002 bytes, two more than the comment of
  the second promises, and for every greater length wrong on some buffer
  (`ByteSum.AccumulatorLimit`, `Checksum.RightExactly`, `WrongBeyondLimit`); the third has no limit.
- The assertion at `inet_chksum.c:416` is about the first pbuf only
  (`Checksum.PseudoPartialBase`).
- The assertion of `sock_inc_used_locked` fails on a slot that was freed by its last holder
  (`SocketLifetime.LockedAssertExactly`, `LockedAssertFails`).
- A netconn message is never acknowledged when a second delete comes while a close is pending, or
  when an error comes while the flag of an aborted nonblocking connect is still set
  (`NetconnProtocol.LosesExactly`, with the runs `SecondDeleteLoses` and
  `NonblockingConnectLoses`). Both runs need the answer ERR_MEM that the documentation of
  `tcp_close` allows (`tcp.c:473-481`); the `tcp_close` of this tree never gives it
  (`tcp.c:449-458`), and against it no message is lost (`TcpLosesNothing`).
- The assertion "blocking connect in progress" at `api_msg.c:1147` tests the state from before the
  abort, so it fails whenever a delete aborts a blocking connect (`TcpNetconn.Netconn.DoDelconn`,
  with the run `TcpNetconn.DeleteDuringConnect`).
- The write loop can spin for ever over a vector of more than 65535 bytes that is not the last,
  because line 1707 compares 16 bits (`NetconnWrite.SpinsExactly`, and `SpinsWithinBuffer` for runs
  with a send buffer that only shrinks during a call); its entry assertions fail on a message that
  was cut to `SSIZE_MAX`, because the loop writes on, with such a send buffer too
  (`NetconnWrite.AssertionsHoldExactly`).
- `dns_compare_name` accepts more than the name (`DnsName.AcceptsExactly`), and `dns_skip_name`
  takes the zero of the root name for an empty first label and reads on behind it, so that it ends
  at least one byte too far or fails (`DnsName.SkipsOwnersExactly`).
- `lwip_selscan` takes any slot in range without a pending free for an open socket: its error for
  sockets that are not open misses slots that were never opened or were freed by their only holder
  (`SelectList.Sockets.Selscan`).
- `dns_enqueue` cannot replace a completed entry whose 8-bit age has come round to zero
  (`DnsTable.RefusedExactly`, with the run `DnsAge.AgeComesRound`).
- The host parser misses a frame that begins where it waits for a command byte or for the last
  tail byte, or in an undefined state (`HostProtocol.FrameReportedExactly`, `FrameMissed`).

## Model

| member | source | states |
|---|---|---|
| `HeapBlocks.LegalExactly` | common/oss/lwip/src/core/mem.c:844-855 | the rounding and wrap-around tests on 16-bit sizes accept a request exactly when it is at most the arena size |
| `HeapBlocks.PluggedKeeps` | common/oss/lwip/src/core/mem.c:474-510 | joining a free block with its neighbours leaves a tiling without two free neighbours |
| `HeapBlocks.FreedKeeps` | common/oss/lwip/src/core/mem.c:617-691 | freeing a used block of a well-formed heap gives a well-formed heap |
| `HeapBlocks.AllocatedKeeps` | common/oss/lwip/src/core/mem.c:891-928 | taking a free block that is big enough, split or whole, gives a well-formed heap |
| `HeapBlocks.TrimmedKeeps` | common/oss/lwip/src/core/mem.c:699-818 | shrinking a used block gives a well-formed heap in each of the three branches |
| `HeapBlocks.SpansFill` | common/oss/lwip/src/core/mem.c:516-538 | used and free blocks together span the arena |
| `HeapBlocks.FreedSpan` | common/oss/lwip/src/core/mem.c:617-691 | a free takes exactly the span of its block off the used total |
| `HeapBlocks.AllocatedSpan` | common/oss/lwip/src/core/mem.c:893-926 | an allocation adds exactly the span its block ends up with |
| `HeapBlocks.TrimmedSpan` | common/oss/lwip/src/core/mem.c:754-803 | a trim takes exactly the difference of the spans off the used total |
| `HeapBlocks.AllFreeIsInitial` | common/oss/lwip/src/core/mem.c:516-538 | a well-formed heap without used blocks is the single block that mem_init built |
| `HeapBlocks.FreeUndoesAllocate` | common/oss/lwip/src/core/mem.c:617-966 | freeing what was just allocated restores the block list |
| `HeapBlocks.StepKeeps` | common/oss/lwip/src/core/mem.c:617-966 | every malloc, free and trim of any argument keeps the heap well formed |
| `HeapBlocks.RunKeeps` | common/oss/lwip/src/core/mem.c:617-966 | so does any sequence of them |
| `HeapBlocks.EveryRun` | common/oss/lwip/src/core/mem.c:516-966 | over every run from mem_init the blocks tile the arena with aligned offsets and minimum sizes, no two neighbours are free, used and free spans add up, and a run that leaves nothing used ends in the initial block |
| `HeapBlocks.LiveDisjoint` | common/oss/lwip/src/core/mem.c:617-966 | payload ranges of different live blocks are disjoint |
| `HeapBlocks.StepKeepsLive` | common/oss/lwip/src/core/mem.c:617-966 | an operation on another block leaves a live range as it is |
| `HeapBlocks.RunKeepsLive` | common/oss/lwip/src/core/mem.c:617-966 | a live range stays until its own block is freed or trimmed, over any run |
| `HeapEffects.Canonical` | common/oss/lwip/src/core/mem.c:474-510 | a well-formed list is determined by its live ranges: two with the same ones are equal, so an operation is pinned by what it does to the live ranges |
| `HeapEffects.FreeEffect` | common/oss/lwip/src/core/mem.c:617-691 | mem_free of a live block ends exactly its life: no other range changes, its bytes leave the used total, and one free block contains them |
| `HeapEffects.TrimEffect` | common/oss/lwip/src/core/mem.c:699-818 | mem_trim changes exactly the end of its block: to the rounded size if that is smaller and a free block follows or a minimal block is left over, and not at all otherwise |
| `HeapEffects.MallocEffect` | common/oss/lwip/src/core/mem.c:841-928 | mem_malloc makes exactly one range live: the front of the lowest free block with room, cut at the rounded size when a minimal block is left over |
| `HeapEffects.MallocRefused` | common/oss/lwip/src/core/mem.c:841-966 | without such a block, or for an empty request or one beyond the arena, nothing changes |
| `HeapEffects.FreeAll` | common/oss/lwip/src/core/mem.c:617-691 | from any well-formed heap, frees in any order lead back to the heap of mem_init exactly when they name every live block |
| `HeapEffects.WindowEffect` | common/oss/lwip/src/core/mem.c:871-883 | a foreign call in a window has its full effect, unless it names the block under allocation |
| `HeapEffects.WindowsLive` | common/oss/lwip/src/core/mem.c:871-945 | over any stretch of windows exactly the blocks that a scheduled call frees are lost, and never the one under allocation |
| `HeapCells.JoinCells` | common/oss/lwip/src/core/mem.c:485-509 | the header writes of a join turn an arena that reflects a block list into one that reflects the joined list |
| `HeapCells.SplitCells` | common/oss/lwip/src/core/mem.c:794-801 | the same for the header writes of a split |
| `HeapCells.MoveCells` | common/oss/lwip/src/core/mem.c:760-778 | the same for moving the header of a free block down over a shrunk one |
| `HeapCells.BlocksLinkValid` | common/oss/lwip/src/core/mem.c:550-563 | every block of a well-formed arena passes mem_link_valid |
| `HeapCells.LowestIsFirstFree` | common/oss/lwip/src/core/mem.c:417-421 | the lfree of the invariant is the lowest free block, or ram_end when there is none |
| `HeapCells.TrimAssertWitness` | common/oss/lwip/src/core/mem.c:790 | the assertion "invalid next ptr" of the last branch of mem_trim fails on a concrete well-formed heap whose last block is trimmed |
| `HeapWindows.WindowsKeep` | common/oss/lwip/src/core/mem.c:871-945 | whatever other contexts free or trim in any number of unprotected windows, the heap stays well formed and the block under allocation keeps its range |
| `HeapWindows.Returned` | common/oss/lwip/src/core/mem.c:891-966 | the block handed out is owned, aligned and big enough after all windows |
| `HeapWindows.PastBound` | common/oss/lwip/src/core/mem.c:870 | no block at or behind MEM_SIZE_ALIGNED - size can hold size bytes, so the scan bound loses nothing |
| `HeapSpared.SparedStep` | common/oss/lwip/src/core/mem.c:617-818 | a free, trim or allocation leaves range and payload of every live block it does not name |
| `HeapArena.Heap.constructor` | common/oss/lwip/src/core/mem.c:516-545 | the arena starts as one free block with lfree at it and zero statistics |
| `HeapArena.Heap.PlugHoles` | common/oss/lwip/src/core/mem.c:474-510 | the in-place joins refine the block lists, with lfree moved along and all payload kept |
| `HeapArena.Heap.MemFree` | common/oss/lwip/src/core/mem.c:617-691 | a pointer is accepted exactly when its block is owned; then that block alone stops being live, one free block covers it, the used statistic falls by its span, every other payload is kept and the same pointer is refused from then on; anything else (NULL, misaligned, outside, unused header, broken links) is refused and only counted. A wild pointer into a payload that happens to look like a linked used header is excluded |
| `HeapArena.Heap.MemTrim` | common/oss/lwip/src/core/mem.c:699-818 | every size, and every pointer outside the arena or to a block: the exact result, the exact new end of the block with everything else in place, the used statistic, kept payload, and exactly when all four assertions hold |
| `HeapArena.Heap.Shrink` | common/oss/lwip/src/core/mem.c:749-818 | the protected part of mem_trim: both shrinking branches refine the block list |
| `HeapArena.Heap.MemMalloc` | common/oss/lwip/src/core/mem.c:831-975 | exact first fit under any schedule of foreign frees and trims in the windows: NULL if and only if no free block fitted during one uninterrupted scan, else the lowest that did; full invariant on return; every live block that no scheduled call names keeps its range and its payload; without windows one Malloc step |
| `HeapArena.Heap.Search` | common/oss/lwip/src/core/mem.c:864-890 | one scan from lfree: undisturbed it finds the lowest fit of the whole heap, with one window for each block it looks at; otherwise it reports the disturbance |
| `HeapArena.Heap.SearchUndisturbed` | common/oss/lwip/src/core/mem.c:861-971 | the search is repeated until no free or trim has come between |
| `HeapArena.Heap.Take` | common/oss/lwip/src/core/mem.c:891-926 | the split or the exact use of the found block refines the block list |
| `HeapArena.Heap.AdjustLfree` | common/oss/lwip/src/core/mem.c:929-952 | lfree is brought to the lowest free block although other contexts free while it is searched |
| `HeapArena.Heap.OwnedAccepted` | common/oss/lwip/src/core/mem.c:617-663 | no guard of mem_free refuses an owned block |
| `HeapArena.Heap.RunWindow` | common/oss/lwip/src/core/mem.c:873-883 | calls of other contexts keep every fact that holds at an unprotected moment, and the range and payload of every block they do not name |
| `ByteSum.ByteOrder` | common/oss/lwip/src/core/inet_chksum.c:79-255 | summing in the other byte order gives the byte-swapped ones'-complement value, section 2 of RFC 1071 |
| `ByteSum.ByteOrderCanon` | common/oss/lwip/src/core/inet_chksum.c:79-255 | the same for the 16-bit values |
| `ByteSum.SumAppend` | common/oss/lwip/src/core/inet_chksum.c:568-588 | the sum of a concatenation, with the byte order turned behind an odd piece |
| `ByteSum.AccumulatorLimit` | common/oss/lwip/src/core/inet_chksum.c:79-173 | a 32-bit accumulator holds the sum of every buffer of n bytes if and only if n is at most 0x20002 |
| `Checksum.StandardChksum1` | common/oss/lwip/src/core/inet_chksum.c:79-114 | the byte loop gives what a 32-bit accumulator makes of the sum, for every length; up to 0x20002 bytes that is the ones'-complement value of the buffer |
| `Checksum.StandardChksum2` | common/oss/lwip/src/core/inet_chksum.c:132-173 | the halfword loop does the same in its byte order at odd and even addresses; up to 0x20002 bytes it gives the same value |
| `Checksum.RightExactly` | common/oss/lwip/src/core/inet_chksum.c:79-173 | the two are right exactly when the sum fits into 32 bits: a lost carry is never made good |
| `Checksum.WrongBeyondLimit` | common/oss/lwip/src/core/inet_chksum.c:79-173 | for every length beyond 0x20002 there is a buffer whose checksum comes out wrong |
| `Checksum.StandardChksum3` | common/oss/lwip/src/core/inet_chksum.c:188-255 | the unrolled loop with end-around carries gives the same value at every alignment and length |
| `Checksum.AddLongs` | common/oss/lwip/src/core/inet_chksum.c:211-228 | eight bytes at a time with end-around carry, the sum of a whole number of words |
| `Checksum.InetChksum` | common/oss/lwip/src/core/inet_chksum.c:555-558 | the complement of the value of the buffer |
| `Checksum.Recheck` | common/oss/lwip/src/core/inet_chksum.c:555-558 | with a checksum stored in a zeroed field at an even offset, the re-check gives 0 exactly for the right checksum (or either zero where the rest sums to 0xffff) |
| `Checksum.FullValue` | common/oss/lwip/src/core/inet_chksum.c:555-558 | when the stored checksum is the one computed, the value is 0xffff, section 1 of RFC 1071 |
| `Checksum.AddPiece` | common/oss/lwip/src/core/inet_chksum.c:575-582 | adding one pbuf, with the bytes swapped after odd lengths, keeps a 16-bit accumulator that stands for the concatenation |
| `Checksum.InetChksumPbuf` | common/oss/lwip/src/core/inet_chksum.c:568-588 | a chain cut into any pieces, odd and empty ones included, has the checksum of the concatenated bytes |
| `Checksum.PseudoBase` | common/oss/lwip/src/core/inet_chksum.c:260-294 | the same on top of a base sum, protocol and length |
| `Checksum.PseudoPartialBase` | common/oss/lwip/src/core/inet_chksum.c:399-440 | the sum of exactly the first chksum_len bytes, and exactly when the assertion on the remaining length holds |
| `Checksum.ChainPrefix` | common/oss/lwip/src/core/inet_chksum.c:407-415 | bytes behind the prefix do not change it |
| `Checksum.InetChksumPseudo` | common/oss/lwip/src/core/inet_chksum.c:309-327 | the flat checksum of the 12-byte pseudo header followed by the data |
| `Checksum.InetChksumPseudoPartial` | common/oss/lwip/src/core/inet_chksum.c:456-473 | the same for a prefix of the data |
| `Checksum.PseudoFlat` | common/oss/lwip/src/core/inet_chksum.c:309-327 | folding the addresses first does not change the value |
| `SelectProtocol.WithoutOne` | common/oss/lwip/src/api/sockets.c:1833-1852 | unlinking removes exactly one element |
| `SelectProtocol.StepKeeps` | common/oss/lwip/src/api/sockets.c:2074-2161 | every protected section of any caller and any event callback keeps the invariant of the handshake |
| `SelectProtocol.NoLostWakeup` | common/oss/lwip/src/api/sockets.c:2074-2599 | in every reachable state, a blocked caller with an event on a watched socket can be woken, or a callback in progress will still signal it |
| `SelectProtocol.WaitingCounts` | common/oss/lwip/src/api/sockets.c:2076-2161 | select_waiting is always the number of callers counting the socket, so its assertion never fails, and all is zero when all have returned |
| `SelectProtocol.WalkDelivers` | common/oss/lwip/src/api/sockets.c:2614-2686 | when nothing else runs in between, a walk that will signal a caller does so within one pass |
| `SelectProtocol.EventStartsWalk` | common/oss/lwip/src/api/sockets.c:2554-2597 | an event that becomes active under a waiting caller starts a walk that reaches it |
| `SelectProtocol.StillReaches` | common/oss/lwip/src/api/sockets.c:2673-2683 | the restart on a changed counter makes a walk reach its caller whatever is linked or unlinked |
| `SelectEvents.FieldsFollow` | common/oss/lwip/src/api/sockets.c:2554-2586 | over every run: rcvevent is its first value plus the receive minus the receive-minus events, sendevent is what the last event about sending said, and errevent holds exactly if it held first or an error has come |
| `SelectList.Reported` | common/oss/lwip/src/api/sockets.c:1873-1935 | so after every run a scan reports a watched socket readable, writable or in error exactly by the events that have come |
| `SelectEvents.SignalCause` | common/oss/lwip/src/api/sockets.c:2625-2672 | a caller is signalled only by a walk that stands on it and matches it, its semaphore given once for that, and taken only by its wakeup |
| `SelectEvents.NoSpuriousWakeup` | common/oss/lwip/src/api/sockets.c:2554-2686 | in every run a caller is signalled only after an event that sets a field of a socket it watches |
| `SelectEvents.ScanBlocksExactly` | common/oss/lwip/src/api/sockets.c:2110-2138 | the second scan, undisturbed, blocks exactly when no watched socket has an event |
| `SelectEvents.UndisturbedCall` | common/oss/lwip/src/api/sockets.c:2055-2165 | a whole lwip_select that nothing disturbs returns, at once or after its timeout, with every socket and the list as they were |
| `SelectEvents.WaitEnds` | common/oss/lwip/src/api/sockets.c:2110-2161 | a wakeup, a timeout and a failing scan all go on to undo the counts |
| `SelectEvents.WalkEnds` | common/oss/lwip/src/api/sockets.c:2625-2684 | a walk that nothing disturbs is over after one pass |
| `SelectList.Waiters.Link` | common/oss/lwip/src/api/sockets.c:1809-1829 | the step Link of the protocol on the doubly linked list: the list represents its elements with the new one in front |
| `SelectList.Waiters.Unlink` | common/oss/lwip/src/api/sockets.c:1833-1856 | the step Unlink of the protocol on the list: one element less, and both assertions hold |
| `SelectList.Waiters.CheckSection` | common/oss/lwip/src/api/sockets.c:2625-2684 | one section of select_check_waiters on the linked list is the step CheckNext of the protocol: the walk ends, or goes on and signals at most one waiter |
| `SelectList.Sockets.Event` | common/oss/lwip/src/api/sockets.c:2554-2597 | the step EventCallback of the protocol, and field by field what each event does to its socket alone, and exactly when the waiters are checked |
| `SelectList.Sockets.Selscan` | common/oss/lwip/src/api/sockets.c:1873-1935 | while no other context runs: -1 exactly when a watched descriptor is out of range or its slot has a free pending, else exactly the sockets with an event and their number |
| `SelectList.Sockets.Count` | common/oss/lwip/src/api/sockets.c:2084-2096 | the step Count of the protocol, or CountFails when all 8 bits of select_waiting are used |
| `SocketLifetime.StepKeeps` | common/oss/lwip/src/api/sockets.c:373-606 | every protected section of open, use and close keeps the lifetime invariant |
| `SocketLifetime.HeldSlotKeepsConn` | common/oss/lwip/src/api/sockets.c:373-606 | while a call holds a slot it keeps its netconn: neither freed nor reallocated |
| `SocketLifetime.NoNewHolder` | common/oss/lwip/src/api/sockets.c:374-408 | no new holder appears once a free is pending |
| `SocketLifetime.RemovedByLastHolder` | common/oss/lwip/src/api/sockets.c:416-440 | a netconn leaves its slot only by the step of the only holder left: a close, or the end of a call on a slot whose free is pending |
| `SocketLifetime.NetconnsConserved` | common/oss/lwip/src/api/sockets.c:416-606 | over every run each netconn created is in exactly one of four places: one call looking for a slot, one slot, deleted once, or refused |
| `SocketLifetime.AllocExactly` | common/oss/lwip/src/api/sockets.c:540-577 | one look of an open: it passes over a slot exactly when that has a netconn or a holder, takes any other one with a clean state whether or not a free is marked in it, and is refused behind the last |
| `SocketLifetime.RefusedLooked` | common/oss/lwip/src/api/sockets.c:540-577 | over every run, an open is refused only when it found each slot, at the moment it looked, with a netconn or a holder |
| `SocketLifetime.FreedIsTaken` | common/oss/lwip/src/api/sockets.c:416-577 | a slot whose netconn was removed goes to the next open that comes to it, unless a call takes a hold on it first |
| `SocketLifetime.LockedAssertExactly` | common/oss/lwip/src/api/sockets.c:396-408 | the assertion of sock_inc_used_locked holds exactly while the slot has its netconn |
| `SocketLifetime.LockedAssertFails` | common/oss/lwip/src/api/sockets.c:396-408 | a reachable run after which it fails: the flag of a freed slot is only cleared by alloc_socket |
| `SocketTable.Table.SockIncUsed` | common/oss/lwip/src/api/sockets.c:374-392 | takes a hold exactly when no free is pending, and changes that count only |
| `SocketTable.Table.FreeSocketLocked` | common/oss/lwip/src/api/sockets.c:587-606 | the only holder empties the slot and gets its netconn to delete; any other leaves the free to the last holder |
| `SocketTable.Table.DoneSocket` | common/oss/lwip/src/api/sockets.c:416-440 | gives up a hold, and empties the slot exactly when it was the last one and a free is pending |
| `SocketTable.Table.AllocSocket` | common/oss/lwip/src/api/sockets.c:540-577 | while no other context runs: -1 exactly when every slot has a netconn or a holder, else the lowest that has neither, with one holder and no pending free |
| `NetconnProtocol.StepKeeps` | common/oss/lwip/src/api/api_msg.c:357-505 | every message and callback that loses nothing keeps: a current message exactly in the blocking states, every other one acknowledged once |
| `NetconnProtocol.LosesExactly` | common/oss/lwip/src/api/api_msg.c:1114-1184 | a message is left without acknowledgement exactly by a second delete during a close, or an error callback while the flag of a nonblocking connect is set and another operation blocks |
| `NetconnProtocol.SecondDeleteLoses` | common/oss/lwip/src/api/api_msg.c:1114-1184 | a run from a new netconn: delete, no memory for the FIN, delete again; the first is lost |
| `NetconnProtocol.NonblockingConnectLoses` | common/oss/lwip/src/api/api_msg.c:480-500 | a run from a new netconn: nonblocking connect, delete without memory, error of the pcb; the delete is lost |
| `NetconnProtocol.TcpLosesNothing` | common/oss/lwip/src/core/tcp.c:449-458 | against tcp_close and tcp_shutdown of this tree, which never answer ERR_MEM, no run loses a message |
| `NetconnProtocol.LostForever` | common/oss/lwip/src/api/api_msg.c:357-505 | a lost message is never acknowledged again |
| `NetconnProtocol.AckedExactlyOnce` | common/oss/lwip/src/api/api_msg.c:357-2005 | over every run, all messages but the current one are acknowledged exactly once if and only if no step loses one |
| `NetconnProtocol.BlockingNetconn` | common/oss/lwip/src/api/api_msg.c:357-2005 | for a netconn used only blocking and not deleted twice, the current message is set exactly in states WRITE, CLOSE and CONNECT and all others are acknowledged once |
| `NetconnProtocol.CloseTimesOut` | common/oss/lwip/src/api/api_msg.c:366-375 | a close that keeps getting ERR_MEM is acknowledged exactly when it has been polled polls_left times, whatever sent callbacks and other messages come between, by a reset if both directions were to be closed |
| `NetconnProtocol.PollsRemain` | common/oss/lwip/src/api/api_msg.c:366-375 | a pending close always has polls left |
| `NetconnResults.StepEffect` | common/oss/lwip/src/api/api_msg.c:357-2005 | what every message and callback does: which message gets which result, who stays blocked, and what becomes of the pcb, the pending error and the flag |
| `NetconnResults.WriteResult` | common/oss/lwip/src/api/api_msg.c:1641-1859 | over every run a write gets exactly the pending error, ERR_INPROGRESS, ERR_CONN, or the result of the step that ends it |
| `NetconnResults.WriteOkMeansDone` | common/oss/lwip/src/api/api_msg.c:1641-1859 | a write is told ERR_OK only by a step that finished it with ERR_OK |
| `NetconnResults.ConnectResult` | common/oss/lwip/src/api/api_msg.c:1302-1415 | over every run a blocking connect gets exactly its refusal or the result of what ends it, and ERR_OK only from a connected callback without an error |
| `NetconnResults.CloseGets` | common/oss/lwip/src/api/api_msg.c:366-1104 | over every run that loses nothing a blocked close gets exactly the result of the attempt that ends it, or success when the connection fails |
| `NetconnResults.ErrorReportedOnce` | common/oss/lwip/src/api/api_msg.c:432-505 | after an error callback, whatever comes, exactly the first write is told that error and every later one ERR_CONN |
| `TcpNetconn.Netconn.constructor` | common/oss/lwip/src/api/api_msg.c:705-760 | a new TCP netconn |
| `TcpNetconn.Netconn.DoCloseInternal` | common/oss/lwip/src/api/api_msg.c:921-1104 | a try to close updates the object exactly as the protocol says: retried on ERR_MEM while polls are left, a reset instead of a failure after that, the pcb given up when both directions are closed |
| `TcpNetconn.Netconn.DoWrite` | common/oss/lwip/src/api/api_msg.c:1814-1859 | the object follows the protocol, so the run theorems hold of it: a pending error is handed out once, a busy netconn refused, otherwise the message becomes the current one |
| `TcpNetconn.Netconn.DoConnect` | common/oss/lwip/src/api/api_msg.c:1351-1415 | the same for connect: four refusals, a blocking connect that keeps its message, a nonblocking one that answers at once |
| `TcpNetconn.Netconn.DoListen` | common/oss/lwip/src/api/api_msg.c:1450-1534 | the same for listen, with the pcb lost when there is no mailbox |
| `TcpNetconn.Netconn.DoClose` | common/oss/lwip/src/api/api_msg.c:1935-2005 | the same for close and shutdown, aborting a running write |
| `TcpNetconn.Netconn.DoDelconn` | common/oss/lwip/src/api/api_msg.c:1114-1207 | the same for delete; its assertion "blocking connect in progress" holds exactly when no blocking connect is under way, and "already writing or closing" exactly when no close is pending |
| `TcpNetconn.DeleteDuringConnect` | common/oss/lwip/src/api/api_msg.c:1118-1148 | a run from a new netconn in which the first of these assertions fails: delete during a blocking connect, which is acknowledged with ERR_CLSD |
| `TcpNetconn.Netconn.DoConnected` | common/oss/lwip/src/api/api_msg.c:1302-1340 | the connected callback wakes the blocked connect, or only clears the flag of a nonblocking one; its assertions hold |
| `TcpNetconn.Netconn.SentTcp` | common/oss/lwip/src/api/api_msg.c:398-422 | the sent callback goes on with the write or the close in progress, as the protocol says |
| `TcpNetconn.Netconn.PollTcp` | common/oss/lwip/src/api/api_msg.c:357-388 | the poll callback does the same and counts down the polls of a close |
| `TcpNetconn.Netconn.ErrTcp` | common/oss/lwip/src/api/api_msg.c:432-505 | the pcb is gone and the error pending; without the flag of a nonblocking connect a blocked write or connect gets the error and a blocked close ERR_OK; the invariant is kept unless that flag makes it lose the message |
| `NetconnWrite.NextBytes` | common/oss/lwip/src/api/api_msg.c:1678-1726 | what an iteration hands to tcp_write are the next bytes of the concatenated vectors |
| `NetconnWrite.StuckExactly` | common/oss/lwip/src/api/api_msg.c:1706-1727 | an iteration repeats unchanged exactly when a blocking write finds no room with a positive multiple of 65536 bytes left in a vector that is not the last |
| `NetconnWrite.LoopEnds` | common/oss/lwip/src/api/api_msg.c:1677-1727 | with vectors of at most 65535 bytes before the last, or nonblocking, the loop ends in fewer iterations than bytes and vectors are left |
| `NetconnWrite.SpinsExactly` | common/oss/lwip/src/api/api_msg.c:1677-1727 | the loop can run for ever if and only if the write blocks and some vector but the last has more than 65535 bytes |
| `NetconnWrite.SpinsWithinBuffer` | common/oss/lwip/src/api/api_msg.c:1677-1727 | the same exact condition for runs in which the send buffer loses what is written and gains nothing during a call |
| `NetconnWrite.WriteEndOk` | common/oss/lwip/src/api/api_msg.c:1641-1804 | a blocking write that returns ERR_OK has written exactly the requested length |
| `NetconnWrite.NonblockingWrite` | common/oss/lwip/src/api/api_msg.c:1690-1695 | a nonblocking write ends in its first call, with ERR_OK only if something was written and ERR_WOULDBLOCK only if nothing was |
| `NetconnWrite.NoRouteReturned` | common/oss/lwip/src/api/api_msg.c:1742-1767 | in any call of any write, ERR_RTE of tcp_output reaches the caller |
| `NetconnWrite.TcpErrorReturned` | common/oss/lwip/src/api/api_msg.c:1706-1770 | in any iteration of any call, an error of tcp_write other than ERR_MEM reaches the caller |
| `NetconnWrite.BlockingReturns` | common/oss/lwip/src/api/api_msg.c:1641-1804 | a blocking write returns nothing but success and such errors: without memory it waits |
| `NetconnWrite.AssertionsHoldExactly` | common/oss/lwip/src/api/api_msg.c:1653-1659 | the assertions at the entry of every call hold, whatever TCP answers, if and only if the message was not cut to SSIZE_MAX; the same if and only if for runs in which the send buffer only shrinks during a call. A write of no bytes needs no memory (tcp_out.c:316-317) |
| `NetconnWriter.Writer.WriteOnce` | common/oss/lwip/src/api/api_msg.c:1678-1726 | one iteration moves the cursor as the model says and TCP has got exactly the bytes in between |
| `NetconnWriter.Writer.WriteLoop` | common/oss/lwip/src/api/api_msg.c:1677-1727 | the same for the loop, which stops as the model does or has used up its answers |
| `NetconnWriter.Writer.WriteMore` | common/oss/lwip/src/api/api_msg.c:1641-1804 | one call: the cursor moves as in the model, the result says whether the caller is woken, and TCP has got exactly the bytes between the two cursors |
| `NetconnWriter.Writer.RunWrite` | common/oss/lwip/src/api/api_msg.c:1641-1804 | the first call and the callbacks after it, up to the end of the write or the failing assertion |
| `NetconnWriter.Writer.SizeSum` | common/oss/lwip/src/api/api_lib.c:1020-1028 | the size sum overflows exactly when the vectors hold more than SIZE_MAX bytes, and is their size otherwise |
| `NetconnWriter.Writer.WriteVectorsPartly` | common/oss/lwip/src/api/api_lib.c:997-1073 | every result and error; what TCP has accepted is exactly the beginning of the vectors up to the returned count, and all of them after a blocking success within SSIZE_MAX |
| `DnsName.JoinLabels` | common/oss/lwip/src/core/dns.c:812-826 | a name and its labels determine each other |
| `DnsName.EncodedLength` | common/oss/lwip/src/core/dns.c:796-828 | the encoding has two bytes more than the name, as reserved |
| `DnsName.EncodeName` | common/oss/lwip/src/core/dns.c:807-828 | the encoder writes exactly the wire format of the labels at its place and nothing else |
| `DnsName.CompareName` | common/oss/lwip/src/core/dns.c:670-717 | the compare loop; its 16-bit offset never wraps |
| `DnsName.SameButForCase` | common/oss/lwip/src/core/dns.c:689-695 | characters count as the same exactly when they are equal or the two cases of one letter |
| `DnsName.AcceptsExactly` | common/oss/lwip/src/core/dns.c:670-717 | what is accepted: exactly the packets whose labels are pieces of the name in any letter case with any one character between them |
| `DnsName.RoundTripExactly` | common/oss/lwip/src/core/dns.c:670-837 | compare and skip return the offset behind an encoded name, in any letter case, if and only if no label but the first is empty and none has 192 bytes or more |
| `DnsName.HostNamesArePlain` | common/oss/lwip/src/core/dns.c:812-826 | the host names of section 2.3.4 of RFC 1035 are among those |
| `DnsName.AcceptanceIsNotEquality` | common/oss/lwip/src/core/dns.c:655-668 | a packet with the one label "a.b" is accepted for the name a.b, which has two |
| `DnsName.SkipName` | common/oss/lwip/src/core/dns.c:727-758 | the skip loop; its 16-bit offset never wraps |
| `DnsName.SkipForward` | common/oss/lwip/src/core/dns.c:727-758 | skipping moves on by two bytes at least, or fails |
| `DnsName.SkipAgrees` | common/oss/lwip/src/core/dns.c:670-758 | whatever is accepted as a name is skipped to the same offset |
| `DnsName.SkipsOwnersExactly` | common/oss/lwip/src/core/dns.c:727-758 | the name of a record, with or without a pointer, is skipped exactly if and only if it is not the root |
| `DnsMessage.BuildQuery` | common/oss/lwip/src/core/dns.c:796-837 | the query packet is filled to the last byte with header, encoded name and question |
| `DnsMessage.FindAddress` | common/oss/lwip/src/core/dns.c:1287-1350 | the answer loop over any packet |
| `DnsMessage.ReadResponse` | common/oss/lwip/src/core/dns.c:1219-1350 | the checks and the answer loop over any packet |
| `DnsMessage.AnswersRead` | common/oss/lwip/src/core/dns.c:1287-1350 | over well-formed records the loop finds exactly the first IPv4 address of class Internet |
| `DnsMessage.ResponseUnderstood` | common/oss/lwip/src/core/dns.c:1189-1373 | a response to a name that survives the encoding is read as the server meant it, whatever the letter case and the further sections |
| `DnsMessage.QueryReadsBack` | common/oss/lwip/src/core/dns.c:796-837 | a query read back: its id, recursion desired, one question of type A and class Internet behind the labels of the name, and nothing else |
| `DnsMessage.JudgedExactly` | common/oss/lwip/src/core/dns.c:1219-1267 | a packet that is no response with one address question for the name is ignored, and one that is reports an error exactly by its response code |
| `DnsMessage.RecordsCut` | common/oss/lwip/src/core/dns.c:1287-1350 | a packet that ends between its records holds no address; one that ends inside a record is ignored |
| `DnsTable.DrawsBounded` | common/oss/lwip/src/core/dns.c:1019-1037 | a new id takes at most one draw more than there are ids in use and is the first free one |
| `DnsTable.FreshId` | common/oss/lwip/src/core/dns.c:1019-1037 | it differs from the id of every query under way |
| `DnsTable.OldestOf` | common/oss/lwip/src/core/dns.c:1438-1468 | the entry to be replaced is the first of the oldest completed ones whose age is not zero |
| `DnsTable.CheckKeeps` | common/oss/lwip/src/core/dns.c:1066-1137 | checking an entry keeps the tables consistent, changes no other entry and leaves none new |
| `DnsTable.StepKeeps` | common/oss/lwip/src/core/dns.c:961-1526 | every call, response, tick and server change keeps them consistent: requests wait for live entries, ids of queries differ, timers and retries stay in bounds |
| `DnsTable.OneMatch` | common/oss/lwip/src/core/dns.c:1213-1217 | a response bears the id of at most one query, and is matched to that |
| `DnsTable.ClearedTally` | common/oss/lwip/src/core/dns.c:981-987 | dns_call_found makes exactly the callbacks it clears |
| `DnsTable.StepTally` | common/oss/lwip/src/core/dns.c:961-1526 | callbacks made and outstanding grow exactly by those accepted with ERR_INPROGRESS |
| `DnsTable.RunTally` | common/oss/lwip/src/core/dns.c:961-1526 | the same over every run |
| `DnsTable.StepServes` | common/oss/lwip/src/core/dns.c:961-1526 | a step serves a waiting request or leaves it in place, one tick nearer if it is a tick |
| `DnsTable.DeadlineHolds` | common/oss/lwip/src/core/dns.c:1066-1137 | in any run a request is served within the ticks its entry has left |
| `DnsTable.ExactlyOnce` | common/oss/lwip/src/core/dns.c:1394-1526 | a call that returns ERR_INPROGRESS has its callback made exactly once, within 14 ticks, whatever else happens |
| `DnsTable.DeadlineExact` | common/oss/lwip/src/core/dns.c:1089-1112 | with both servers configured and no answer it takes exactly that many ticks |
| `DnsTable.RefusedExactly` | common/oss/lwip/src/core/dns.c:1409-1482 | ERR_MEM exactly when no request is free, or no query for the name runs and no entry is unused or completed with a non-zero 8-bit age; and then nothing changes |
| `DnsEffects.ReceiveEffect` | common/oss/lwip/src/core/dns.c:1211-1378 | what a response does: nothing unless it comes from the server asked; an address serves everyone who waits and is kept for its limited time to live; an error goes on with the next server, if there is one, and else ends the query at once |
| `DnsEffects.CheckEffect` | common/oss/lwip/src/core/dns.c:1066-1137 | what a check does to each kind of entry, with a fresh id for a new query and an immediate end when the server to ask is missing |
| `DnsEffects.KnownFor` | common/oss/lwip/src/core/dns.c:1122-1129 | a completed entry is dropped after exactly as many ticks as its time to live says |
| `DnsEffects.AskEffect` | common/oss/lwip/src/core/dns.c:1394-1526 | an accepted call waits in a free request: for a query under way for its name if there is one, else for an entry of its own that has begun to ask the first server; without that server it has been called at once |
| `DnsAge.AgeComesRound` | common/oss/lwip/src/core/dns.c:1438-1468 | a run from the zeroed tables after which a name is refused although a request is free and one entry is completed |
| `DnsTable.AddressesAreAnswers` | common/oss/lwip/src/core/dns.c:1211-1340 | a callback gets an address only from a response with the id of its query, from the server asked, that holds the address |
| `Resolver.Resolver.constructor` | common/oss/lwip/src/core/dns.c:296-301 | the zeroed tables are consistent |
| `Resolver.Resolver.SetServer` | common/oss/lwip/src/core/dns.c:361-371 | a server is set or cleared within the table only, and the invariant kept |
| `Resolver.Resolver.CallFound` | common/oss/lwip/src/core/dns.c:961-987 | the callbacks of an entry in order, and their requests free |
| `Resolver.Resolver.CreateTxid` | common/oss/lwip/src/core/dns.c:1019-1037 | the drawing loop ends, with the first free id |
| `Resolver.Resolver.SendQuery` | common/oss/lwip/src/core/dns.c:767-862 | a query packet for the present server, or the entry given up when the server is gone |
| `Resolver.Resolver.CheckEntry` | common/oss/lwip/src/core/dns.c:1066-1137 | sends, retries, changes the server, gives up or ages the entry as the model says; a query goes out exactly when the entry was due and still asks, to its present server with its id and name |
| `Resolver.Resolver.Tmr` | common/oss/lwip/src/core/dns.c:1143-1150 | a tick is the check of every entry in turn, and the queries that go out are exactly those of the entries asked again or at another server |
| `Resolver.Resolver.CorrectResponse` | common/oss/lwip/src/core/dns.c:1156-1183 | the address is kept with a limited time to live, the callbacks made, and an entry with none dropped |
| `Resolver.Resolver.Recv` | common/oss/lwip/src/core/dns.c:1189-1378 | any packet from any address: ignored, or handled as ReceiveEffect says for the one entry with its id; the queries that go out are exactly those of the entries that have changed their server |
| `Resolver.Resolver.FindSlot` | common/oss/lwip/src/core/dns.c:1438-1469 | an unused entry, or else the oldest completed one |
| `Resolver.Resolver.Enqueue` | common/oss/lwip/src/core/dns.c:1394-1526 | a name joins a query under way, gets an entry, or is refused, exactly as in the model that ExactlyOnce, RefusedExactly and AskEffect are about; a query goes out exactly for a new entry |
| `Resolver.Resolves` | common/oss/lwip/src/core/dns.c:1189-1378 | from query to callback: a well-formed response from the asked server serves every request of its entry with the first IPv4 address it holds, frees them, and keeps the address for its time to live |
| `Resolver.ErrorResponse` | common/oss/lwip/src/core/dns.c:1269-1374 | a well-formed error response: without a further server everyone who waits is told at once and the entry is free; with one everyone waits on and a query to it goes out |
| `HostProtocol.Parser.Reset` | common/renesas/application/host_protocol.c:31-39 | a fresh parser |
| `HostProtocol.Parser.Resync` | common/renesas/application/host_protocol.c:18-28 | a header byte is kept as the beginning of the next frame |
| `HostProtocol.Parser.BytePush` | common/renesas/application/host_protocol.c:46-106 | one byte in every state, the undefined ones included |
| `HostProtocol.ResponseBuild` | common/renesas/application/host_protocol.c:109-121 | the five bytes 77 44 status 44 77 |
| `HostProtocol.AfterAppend` | common/renesas/application/host_protocol.c:46-106 | state and events of a stream are those of its pieces one after the other |
| `HostProtocol.EventMeans` | common/renesas/application/host_protocol.c:46-106 | a command c means that the last five bytes were 77 44 c 44 77, an error that a header and a command byte were followed by a wrong tail |
| `HostProtocol.WrongTail` | common/renesas/application/host_protocol.c:46-106 | a frame with a wrong tail is reported as an error as soon as the tail differs, from every state in which a frame may begin, and the wrong byte may begin the next frame |
| `HostProtocol.BrokenHeader` | common/renesas/application/host_protocol.c:46-106 | a broken header is passed over in silence, and an undefined state is reset |
| `HostProtocol.CommandsDisjoint` | common/renesas/application/host_protocol.c:46-106 | the frames of two commands do not overlap |
| `HostProtocol.FrameReportedExactly` | common/renesas/application/host_protocol.c:46-106 | a well-formed frame is reported if and only if the parser is in one of the three states in which it may begin: waiting for either header byte or for the first tail byte |
| `HostProtocol.FrameMissed` | common/renesas/application/host_protocol.c:46-106 | 77 44 before a frame hides it |
| `HostProtocol.SelfSynchronises` | common/renesas/application/host_protocol.c:46-106 | whatever the parser holds, after one well-formed frame the next is reported as its own command and leaves the parser fresh |
| `HostProtocol.ParseFrames` | common/renesas/application/host_protocol.c:46-121 | parsing printed frames gives back exactly their data, without an error |
| `HostServer.Connection.constructor` | common/renesas/application/lwip_port_main.c:441-444 | a new connection starts with a fresh parser |
| `HostServer.Connection.StatusSend` | common/renesas/application/lwip_port_main.c:568-594 | success means that the whole frame went out, however it was cut; failure that a proper part of it did |
| `HostServer.Connection.HandleBytes` | common/renesas/application/lwip_port_main.c:504-530 | the byte loop answers a receive exactly, or stops at the reply that could not be sent |
| `HostServer.Connection.HandleConnectedSocket` | common/renesas/application/lwip_port_main.c:456-533 | the same with the ends and errors of lwip_recv: would block, close, close failed |
| `HostServer.SplitIndependent` | common/renesas/application/lwip_port_main.c:504-530 | replies and state depend on the received stream only, not on how TCP cuts it |
| `HostServer.OneReplyPerEvent` | common/renesas/application/lwip_port_main.c:504-530 | one five-byte reply for each event, in order |
| `HostServer.BadFrameServed` | common/renesas/application/lwip_port_main.c:504-530 | a frame with a wrong tail is answered with status 1 and executes nothing |
| `HostServer.Exchange` | common/renesas/application/lwip_port_main.c:504-594 | a client that sends frames and parses the replies, cut anyhow, sees exactly the status of each command in turn |
| `PhaseControl.PhaseIsRemainder` | common/renesas/module/gpt/gpt.c:111-115 | the truncated remainder, made non-negative, is the place of the time in its cycle |
| `PhaseControl.PhaseShift` | common/renesas/module/gpt/gpt.c:111-115 | times that differ by whole cycles, negative ones included, have the same phase |
| `PhaseControl.DcSync.constructor` | common/renesas/module/gpt/gpt.c:102-104 | the static variables at start |
| `PhaseControl.DcSync.SyncAdjust` | common/renesas/module/gpt/gpt.c:100-177 | in 64-bit and 32-bit variables no operation overflows, and the call refines the unbounded controller |
| `PhaseControl.ErrorIsNearest` | common/renesas/module/gpt/gpt.c:128-135 | the error is the difference to the target modulo a cycle, at most half a cycle, and no shorter one exists |
| `PhaseControl.RunBounded` | common/renesas/module/gpt/gpt.c:100-177 | over every run the integral stays in -20000..20000, the target is the phase of the first call, and every later call sets a period of 799200 to 800800 |
| `PhaseControl.CyclesDoNotMatter` | common/renesas/module/gpt/gpt.c:111-115 | moving each input by any whole number of cycles of its own changes no output and no state |
| `PhaseControl.PeriodMonotone` | common/renesas/module/gpt/gpt.c:157-176 | a phase further ahead never gets a longer period, and mirrored errors get mirrored periods |
| `PhaseControl.PeriodExactly` | common/renesas/module/gpt/gpt.c:154-176 | the period in closed form: one nanosecond for every 100 of the error and every 20 of the integral, up to 2000, and two counts for every five of these |
| `PhaseControl.IntegralWindsUp` | common/renesas/module/gpt/gpt.c:141-152 | while the phase is ahead, n calls raise the integral by n up to its limit |
| `PhaseControl.NoBias` | common/renesas/module/gpt/gpt.c:128-176 | a run of mirrored errors gives mirrored periods throughout |

## Left out

- The pool and libc builds of `mem_malloc`, overflow guard bytes, `mem_sanity` and `mem_calloc`: they rest on code that is not part of this model or only add checks.
- HeapArena.Heap.MemFree: a pointer that passes every guard must be one that `mem_malloc` returned; stale pointers to the middle of a payload that happens to look like a header are excluded, because the code cannot tell them apart.
- HeapArena.Heap.MemTrim: a pointer into the arena must be one that `mem_malloc` returned, because the code reads the header before it without checking it.
- HeapArena.Heap.MemMalloc: the schedule of foreign calls is finite, so a search that is disturbed for ever is not modelled; other contexts free and trim only blocks that their owners hold.
- The heap with other alignments, 32-bit sizes or an arena of more than 64000 bytes: header size and alignment are fixed constants.
- The IPv6 pseudo headers and `lwip_chksum_copy`: the first differ by a longer header, the second copies and sums.
- The wrap-around of `select_cb_ctr` after 2^32 changes within one section, `lwip_poll`, the socket timeouts and sockets closed while they are watched.
- SelectList.Sockets.Selscan: a scan in which no other context runs; the interleaved scan is the Scan step of `SelectProtocol`.
- SocketTable.Table.SockIncUsed: requires fewer than 255 holders of the slot, beyond which the 8-bit counter of the code would wrap around; no step of the protocol takes a further hold then.
- TCP, UDP and pbuf internals: results of `tcp_write` (but for ERR_MEM on no bytes), `tcp_close`, `tcp_shutdown`, `tcp_connect` and `tcp_listen` are free, and a pbuf chain is its bytes.
- UDP and raw netconns, binding, disconnecting, mailboxes, `API_EVENT` and the low-water marks of `select`.
- NetconnWriter.Writer.WriteVectorsPartly: the answers of TCP are a finite list; a write that uses them up is reported as blocked, and `SpinsExactly` says when it can go on without end.
- The DNS cache look-up, numeric host names, dual stack, mDNS, the local host list, random ids and source ports, and callbacks that call the resolver again.
- Resolver.Resolver.SendQuery: a packet is always built and handed over; a failing `pbuf_alloc` or `udp_sendto` only loses the query, which the retries cover.
- DnsTable.ExactlyOnce: for a callback that is not passed to another call in the same run; `RunTally` is the law for callbacks used more than once.
- The comparison of characters is the one of the C library's `tolower` in the C locale; an empty name (the host name ".") is never a duplicate.
- `host_command_execute`: an arbitrary function from motion state and command to status.
- Listener sockets, descriptor sets and the address list of the TCP server, thread start and stop, driver input and output, the UART, RTOS semaphores and GPT hardware calls, management tags and callback link lists.
- What the timer and the EtherCAT clock do between two calls of the phase controller: the times are arbitrary.
