# CarrotOS kernel model

A Dafny model of the parts of the CarrotOS x86-64 kernel that are algorithms over state in memory or on disk, with
proofs about whole runs of them: TCP data transfer, four-level page tables and what is built on them, the multi-core
scheduler, FAT32 cluster chains, and the codecs, rings and calendar arithmetic they rely on. Sizes (threads, frames,
clusters, ring lengths, buffers) are symbolic throughout.

`dafny verify dfyconfig.toml` checks the project. Every file is one module.

- `Fifo`, `Backlog`: rings of `libs/mem/mem.h` as bounded queues; the accept backlogs kept in one.
- `TcpEndpoint`, `TcpProtocol`, `TcpCalls`, `TcpRecovery`: one ESTABLISHED socket, updated in place; two of them over a
  network that may drop, duplicate, delay and reorder, as runs of steps; what send calls and readers see of it; what
  retransmission recovers.
- `PageTables`, `AddressSpaces`, `ProcessMemory`, `Fork`, `StaleFork`, `TableBuild`: tables as words in physical frames. A ghost tag
  on each table frame says which root it hangs under and by which path; soundness of the tags gives tree separation,
  and the single-word lemmas (write a leaf, link a fresh table, unlink an empty one) carry every operation.
- `Scheduler`: the thread table and the per-core current threads, with the three tick functions.
- `FatChains`, `FatVolume`, `FatDirectory`: chains inside a file allocation table; the volume with its mirrors and its
  clusters; a directory through many creates.
- `Checksum`, `Transcode`, `Calendar`: the Internet checksum in three forms, UTF-8 and UTF-16, dates and the clock chip.
- `Arithmetic`: quotients, remainders and wrap-around, shared by the others.

Methods of the classes work in place and are tied to a value: an `Endpoint`, a snapshot of memory, a `Sys`, a list of
chains, a queue. The laws are lemmas about those values; for whole runs they are stated over every sequence of steps.

## What the code does not do

Some laws one would expect hold only under a condition. The code is modelled as it is, and where a
line says "if and only if" both directions are proved.

- A received byte is acknowledged whether or not the ring has room. The receiver is fed a prefix of the sent stream
  if and only if every taken segment met a ring with room (`StopAndWaitSafety`, `OverflowLosesBytes`).
- The sleep in the send call is not a loop. A second sending thread replaces the segment in flight. Over a whole run
  every accepted byte is acknowledged or in flight if and only if every commit found no bytes in flight
  (`NothingOverwrittenExactly`, `TwoSendersLoseBytes`).
- Sequence counters are 64 bits wide and sent as 32. Safety does not depend on it, but a segment in flight can still be
  acknowledged, by deliveries alone, if and only if it ends below 2^32 (`UnblocksExactly`).
- `timer_tick1` on a RUNNING thread without a successor above slot 1 leaves a RUNNING thread that no core runs, and no
  step but the end of its process changes that. A run keeps exclusive execution if and only if it has no such yield
  (`YieldSafeExactly`, `RunIsExclusiveExactly`, `LonelyYieldLoses`). Even so no thread is ever on two cores
  (`RunKeepsSeats`).
- `clone_cr3` does not clear the tables it fills. On a low page the child agrees with the parent if and only if the
  parent has the page's L1 table, or the word left in the child's frame where the parent's walk stops is zero or leads
  nowhere (`CloneAgreesExactly`, `StaleWordShows`). If free frames read as zero the low halves are equal
  (`CloneIsExact`), and stay so through any family of forks (`ForkRun`).
- `create_page_table_for_process` hangs L1 tables it never writes. It leaves no empty table if and only if it maps
  something, starts below page 512, and ends off a multiple of 512 or at HM (`EmptyExactly`). Mapping and unmapping
  never add an empty table (`Increase`, `Decrease`).
- `fat_set_entry` writes the boot sector over the mirrors' sector, so mirrors agree if and only if the primary's sector
  equals it (`MirrorAgreesExactly`, `Create`); `fat32_set_fat_entry` writes them correctly (`SetFatEntry`, `FreeChain`).
- A write that runs off the end of its chain stores the part that fits and returns -4; the branch meant to extend the
  chain is never taken, because the end of a chain is reported as cluster 0 (`WriteFile`).
- A read whose end wraps in 64 bits is not cut to the file size (`ReadFile`).
- Backlog records stay whole in every run if and only if the ring's size less one is a multiple of eight
  (`WholeInEveryRunExactly`).
- The clock's century register is never written. Reading the clock after setting it gives the same count if and only if
  that register fits the year, or the year is 1970 and the register says less than 19 (`ReadBackExactly`).
- A byte string survives UTF-8 to UTF-16 and back if and only if it is UTF-8 with lone surrogates let through and no
  high surrogate directly before a low one; this covers all well-formed UTF-8 (`RoundTripExactly`).
- A duplicate segment is not acknowledged again (`DuplicateIsSilent`). When everything on the network is lost, retries
  get the segment in flight acknowledged if and only if one of the four is left, the receiver has not taken the segment,
  and it ends below 2^32 (`RecoversExactly`).
- The slot of a new directory entry is taken if and only if the name begins with neither 0 nor 0xE5; otherwise the next
  create overwrites it (`SlotTakenExactly`).

## Model

| member | source | states |
|---|---|---|
| Fifo.Ring.Write | libs/mem/mem.h:49-63 | appends exactly the longest prefix that fits in size - 1 cells, and reports its length |
| Fifo.Ring.Read | libs/mem/mem.h:34-48 | removes and returns the oldest cells, as many as asked for or there are |
| Fifo.PushCell | libs/mem/mem.h:49-63 | writing at the head and advancing it, wrap-around included, appends to the queue held between tail and head |
| Fifo.PopCell | libs/mem/mem.h:34-48 | advancing the tail, wrap-around included, removes the first element of that queue |
| Fifo.QueueConserves | libs/mem/mem.h:34-63 | over any interleaving of reads and writes, what was queued and accepted is what was returned followed by what is left |
| Fifo.UnitRing.Write | libs/mem/mem.h:141-161 | the sized form appends whole units exactly as a ring of units does |
| Fifo.UnitRing.Read | libs/mem/mem.h:125-140 | the sized form returns the oldest units, laid out one after the other |
| Fifo.PutIsUpdate | libs/mem/mem.h:150-155 | copying one unit into the byte buffer changes that unit's cell and no other |
| Backlog.Listener.Push | core/network/af_unix/stream.h:6-13 | appends the first bytes of the number, as many as fit, and reports how many |
| Backlog.Listener.Pull | core/network/af_unix/stream.h:14-25 | returns the front bytes, followed by bytes of 255 where fewer than eight were queued, so -1 from an empty backlog |
| Backlog.PushWhole | core/network/af_inet/tcp.h:378-385 | with eight free bytes a push adds one record; with one to seven it leaves the queue off a record boundary |
| Backlog.BacklogIsQueue | core/network/af_unix/stream.h:6-25 | over any run in which no push meets one to seven free bytes, pulls return the pushed numbers whole and in order, and -1 when empty |
| Backlog.WholeInEveryRunExactly | core/network/af_unix/stream.h:6-25 | records stay whole in every run if and only if the capacity is a multiple of eight |
| TcpEndpoint.TcpSocket.SendEnter | core/network/af_inet/tcp.h:93-100 | a send call goes to sleep, with its data, exactly when a segment is in flight; nothing else changes |
| TcpEndpoint.TcpSocket.SendCommit | core/network/af_inet/tcp.h:101-111 | puts the first 1500 bytes of its caller's data, or all of fewer, in flight, transmits exactly them and returns how many; -ENOTSOCK when no longer established; nothing else changes |
| TcpEndpoint.TcpSocket.HandleAck | core/network/af_inet/tcp.h:360-377 | advances and unblocks on the exact acknowledgement only, and then leaves no sender asleep, each with its own data; otherwise changes nothing |
| TcpEndpoint.TcpSocket.HandleSegment | core/network/af_inet/tcp.h:482-499 | takes a payload exactly at the expected number, appends what fits, advances by all of it and acknowledges |
| TcpEndpoint.TcpSocket.RetryTick | core/network/af_inet/af_inet.h:966-981 | resends the segment in flight while at most four retries are counted, and otherwise gives the connection up; does nothing when none is in flight |
| TcpProtocol.SenderCommits | core/network/af_inet/tcp.h:101-111 | a commit with no bytes in flight keeps the invariant of its direction |
| TcpProtocol.SenderGetsSegment | core/network/af_inet/tcp.h:360-377 | any segment delivered to the sender, old or new, keeps it |
| TcpProtocol.SenderRetries | core/network/af_inet/af_inet.h:966-981 | a retransmission keeps it |
| TcpProtocol.TakenIsInFlight | core/network/af_inet/tcp.h:326-359 | a segment the receiver takes is the one in flight, with sequence numbers cut to 32 bits or not |
| TcpProtocol.ReceiverGetsSegment | core/network/af_inet/tcp.h:326-359 | any segment delivered to the receiver keeps the invariant |
| TcpProtocol.SenderActs | core/network/af_inet/tcp.h:87-111 | every action of the sender that is no commit over bytes in flight keeps the invariant of its direction |
| TcpProtocol.ReceiverActs | core/network/af_inet/tcp.h:326-359 | every action of the receiver, commits included, keeps it |
| TcpProtocol.RunKeepsDirection | core/network/af_inet/tcp.h:326-377 | so does every run in which that sender's commits are clean, whatever the other end commits |
| TcpProtocol.RunKeepsInv | core/network/af_inet/tcp.h:326-377 | both directions hold after every run clean at both ends, whatever the number of sending threads |
| TcpProtocol.OneSenderIsClean | core/network/af_inet/tcp.h:93-100 | one sending thread per socket makes every run clean |
| TcpProtocol.DroppedMeansOverflow | core/network/af_inet/tcp.h:326-359 | bytes are lost in a run if and only if some taken segment met a ring without room |
| TcpProtocol.StopAndWaitSafety | core/network/af_inet/tcp.h:482-499 | in every run in which the sender's commits are clean, whatever the receiver commits, the expected number is the sender's or that plus the in-flight length; the received bytes are that prefix of the accepted ones if and only if there was room; an unblocked sender has delivered everything |
| TcpProtocol.EndsAreInterchangeable | core/network/af_inet/tcp.h:87-111 | exchanging the ends of a run exchanges the ends of its result and which of them commits cleanly, so all of this holds in both directions |
| TcpProtocol.DuplicateIsSilent | core/network/af_inet/tcp.h:495-496 | a duplicate of a taken segment is neither appended nor acknowledged again |
| TcpProtocol.StalledForever | core/network/af_inet/tcp.h:360-377 | a segment ending at or beyond 2^32 stays in flight through every run of clean commits, and an empty one through every run with one sender per socket |
| TcpProtocol.UnblocksExactly | core/network/af_inet/tcp.h:360-377 | in every state reached by clean commits with a non-empty segment in flight between established ends: some deliveries alone acknowledge it if and only if it ends below 2^32, and so does some run of clean commits |
| TcpProtocol.NothingOverwrittenExactly | core/network/af_inet/tcp.h:93-111 | over every run with any number of senders, the accepted bytes that are neither acknowledged nor in flight never get fewer, and none are added if and only if every commit found no bytes in flight |
| TcpProtocol.TwoSendersLoseBytes | core/network/af_inet/tcp.h:93-111 | a run with two senders and an unclean commit after which the received bytes are no prefix of the accepted ones |
| TcpProtocol.OverflowLosesBytes | core/network/af_inet/tcp.h:326-359 | a run with one sender in which two bytes are acknowledged and one is kept |
| TcpCalls.CallerKeepsData | core/network/af_inet/tcp.h:93-100 | in every run a thread inside a send call still holds what it was called with, through sleep and wake-up |
| TcpCalls.CommitSendsWhatWasGiven | core/network/af_inet/tcp.h:101-111 | every commit sends, and adds to the accepted bytes, the first 1500 bytes at most of what its own thread was called with |
| TcpCalls.OnlyCommitsSend | core/network/af_inet/tcp.h:101-111 | nothing but an established commit of an awake caller adds accepted bytes |
| TcpCalls.NobodySleepsInVain | core/network/af_inet/tcp.h:360-377 | in every run with any number of threads, whoever sleeps in a send call waits for a segment that is in flight |
| TcpCalls.RunReadsInOrder | core/network/af_inet/tcp.h:303-317 | over every run, the bytes read followed by those in the ring are the bytes put into it |
| TcpCalls.ReaderGetsWhatWasSent | core/network/af_inet/tcp.h:303-317 | with clean commits and room in the ring, what the receiving application has read is a prefix of what the send calls reported as sent |
| TcpRecovery.OneRetryRecovers | core/network/af_inet/af_inet.h:966-981 | with nothing left on the network, one retry, the delivery of the segment it sends and of the answer to it unblock the sender and advance it |
| TcpRecovery.RecoversExactly | core/network/af_inet/af_inet.h:966-981 | from every reachable state with a non-empty segment in flight, after everything is lost, retries and deliveries can unblock the sender if and only if a retry is left, the segment is not yet taken and it ends below 2^32 |
| TcpRecovery.PiggybackRecovers | core/network/af_inet/tcp.h:101-111 | data the receiver sends carries a lost acknowledgement along |
| TcpRecovery.FifthTickGivesUp | core/network/af_inet/af_inet.h:966-981 | after a commit that stays unacknowledged, whatever else happens, the connection is given up at the fifth tick and not before |
| PageTables.Recompose | core/scheduler.h:663-678 | the four indices are the nine-bit digits of the page number, L4 first |
| PageTables.PathIsUnique | core/scheduler.h:663-712 | different pages take different ways through the four levels |
| PageTables.WordIsPrivate | core/scheduler.h:663-712 | in a sound memory no page of any process but the one a leaf word belongs to reads that word |
| PageTables.WriteElsewhere | core/scheduler.h:663-712 | a write off a page's way leaves its translation alone |
| PageTables.LeafWriteIsSound | core/scheduler.h:709-711 | writing a leaf word keeps memory sound |
| PageTables.LeafWriteMoves | core/scheduler.h:709-711 | and changes the translation of its own page only, in every process |
| PageTables.LinkIsSound | core/scheduler.h:679-708 | hanging an erased free frame into a zero word as a table keeps memory sound |
| PageTables.LinkKeeps | core/scheduler.h:679-708 | and changes no translation |
| PageTables.UnlinkIsSound | core/scheduler.h:763-776 | clearing the word of an all-zero table keeps memory sound |
| PageTables.UnlinkKeeps | core/scheduler.h:763-776 | and changes no translation |
| PageTables.FreshIsNamedOnce | core/scheduler.h:348-367 | a frame just handed out is named by exactly one word of all tables |
| PageTables.MappedIsPermitted | core/scheduler.h:679-711 | in a sound memory every word on the way to a mapped page is present, writable and the user's, at all four levels |
| AddressSpaces.PhysicalMemory.GetFreeBlock | core/scheduler.h:348-367 | marks and returns the lowest free frame above the kernel; fails only when there is none |
| AddressSpaces.PhysicalMemory.Increase | core/scheduler.h:663-712 | maps the page, present, writable and the user's, to a free frame named nowhere else, or keeps its mapping; no other page of any process changes; every table that is empty afterwards was there and empty before |
| AddressSpaces.PhysicalMemory.IsPaged | core/scheduler.h:778-815 | true exactly for pages with a translation |
| AddressSpaces.PhysicalMemory.BlockEmpty | core/scheduler.h:713-722 | true exactly when all 512 words are zero |
| AddressSpaces.PhysicalMemory.Prune | core/scheduler.h:763-776 | cutting off an all-zero table changes no translation and can empty its parent only |
| AddressSpaces.PhysicalMemory.Decrease | core/scheduler.h:723-777 | removes exactly that page's translation, in that process only; every table that is empty afterwards was there and empty before |
| ProcessMemory.DivCeil | core/scheduler.h:324-330 | the least number of blocks that covers a length |
| ProcessMemory.MapThenClear | core/scheduler.h:663-777 | unmapping a range just mapped restores every translation of every process |
| ProcessMemory.Process.SysBrk | core/syscall/syscall2.h:333-357 | maps exactly the pages up to a higher end to fresh frames, or unmaps exactly those down to a lower one, and returns the new end |
| ProcessMemory.Process.BrkStep | core/syscall/syscall2.h:333-357 | at or above the heap start, exactly the heap's pages are mapped afterwards |
| ProcessMemory.Process.BrkRun | core/syscall/syscall2.h:333-357 | over any sequence of calls the mapped pages are exactly those of the heap and nothing outside changes |
| ProcessMemory.Process.RegionIsFree | core/scheduler.h:816-835 | true exactly when every page of the region is unmapped |
| ProcessMemory.Process.FindFreeRegion | core/scheduler.h:816-835 | the lowest fully unmapped region of that length above page 0; 0 exactly when there is none |
| ProcessMemory.Process.SysMmap | core/syscall/syscall2.h:282-322 | at 0, maps the lowest free region, or from address 0 on when there is none; at a hint, from the hint on; unmapped pages get fresh frames, nothing else changes, and it refuses exactly when the first page is mapped |
| ProcessMemory.Process.SysMunmap | core/syscall/syscall2.h:323-332 | removes exactly the pages of the range |
| ProcessMemory.Process.MmapThenMunmap | core/syscall/syscall2.h:282-332 | restores every translation of every process |
| ProcessMemory.Process.FindStackSlot | core/scheduler.h:863-880 | the downward search ends at the highest slot without a stack; slot s begins 5s pages below the page under HM |
| ProcessMemory.Process.RegisterStack | core/scheduler.h:863-880 | maps the four pages below the top of that slot to fresh frames and nothing else |
| ProcessMemory.Process.EndStack | core/scheduler.h:1108-1119 | unmaps the four pages below that top and nothing else |
| ProcessMemory.Process.StackStep | core/scheduler.h:863-880 | a start adds one stack in the highest vacant slot, an end removes exactly the named one; the four pages of that slot are mapped or unmapped and no other page of any process moves |
| ProcessMemory.Process.StackRun | core/scheduler.h:863-880 | over any sequence of starts and ends in which each start finds a vacant slot, each slot has all four pages or none, live threads have different slots, there are as many as were started and not ended, and no page outside the slots moves, in this process or any other |
| ProcessMemory.StacksAreGuarded | core/scheduler.h:863-880 | between the pages of two stacks lies an unmapped page |
| Fork.CloneBelow | core/syscall/syscall2.h:22-66 | copying a table level by level leaves a complete copy through fresh tables and keeps memory sound |
| Fork.CloneCr3 | core/syscall/syscall2.h:22-66 | clones the low half and copies the rest of the root, changing no other address space |
| Fork.CloneIsFaithful | core/syscall/syscall2.h:22-66 | every low page whose tables the parent has carries the same leaf in the child |
| Fork.CloneAgreesExactly | core/syscall/syscall2.h:22-66 | for every low page child and parent agree if and only if the parent's walk reaches L1, or the word the child's frame held before, where that walk stops, is zero or leads to zero |
| StaleFork.StackIsMapped | core/syscall/syscall2.h:129-134 | a parent fork accepts: whole tables and four stack pages mapped, beside free frames that hold a stale word |
| StaleFork.StateIsClone | core/syscall/syscall2.h:22-66 | what the clone makes of it when it takes the free frames in order |
| StaleFork.StaleWordShows | core/syscall/syscall2.h:22-66 | every clone of it, whichever frames are taken, has a page the parent has not |
| Fork.UntouchedTranslates | core/syscall/syscall2.h:22-66 | adding a child's tables changes no translation of any other process |
| Fork.RemapPage | core/syscall/syscall2.h:129-134 | gives the child a fresh copy of the parent's page and changes no other translation |
| Fork.SysFork | core/syscall/syscall2.h:126-134 | after a fork every old translation stands, the child's stack pages are fresh copies, and every other low page is inherited; whoever had whole tables still has, and the child has if free frames read as zero |
| Fork.ForkRun | core/syscall/syscall2.h:126-134 | over any sequence of forks by members of one family, while free frames read as zero: every member can fork again, has the pages of the first outside the stack, and no translation that was there changes |
| TableBuild.BuildBelow | core/scheduler.h:477-522 | the nested loops map exactly the pages from the start up to the end of this table's reach, make an L1 table for each block of 512 pages they come to, and then stop |
| TableBuild.EmptyExactly | core/scheduler.h:477-522 | the build leaves no new empty table if and only if it maps something, starts below page 512, and ends off a multiple of 512 or at HM |
| TableBuild.CopyKernelWords | core/scheduler.h:515-520 | copies the 128 kernel words of the root and changes no low translation |
| TableBuild.CreatePageTable | core/scheduler.h:477-522 | maps exactly the pages start..start+count-1 to pairwise distinct fresh frames, nothing else below, changes no other process, and leaves no new empty table if and only if the request fills its tables |
| Scheduler.Kernel.HandleSleeping | core/interrupt.h:67-79 | makes exactly the sleepers ready whose time is not after now, and leaves every other slot alone |
| Scheduler.ReachedIsOrder | core/time.h:191-198 | a time has come exactly when it is no more microseconds than the clock shows |
| Scheduler.Kernel.FindReady | core/interrupt.h:160-175 | the first READY slot after the current one, cyclically |
| Scheduler.SearchFinds | core/interrupt.h:160-175 | the search passes over no READY slot at a smaller cyclic distance |
| Scheduler.Kernel.TickFromIdle | core/interrupt.h:136-207 | slot by slot: the nearest thread that can run becomes RUNNING and is resumed on this core, due sleepers wake, everything else stays |
| Scheduler.Kernel.TickFromNonIdle | core/interrupt.h:209-360 | slot by slot: the nearest thread that can run takes the core and is resumed, the RUNNING one it replaces is READY again, an ended one is dead, due sleepers wake, everything else stays; with nobody else the core keeps its RUNNING thread |
| Scheduler.Kernel.TickOnYield | core/interrupt.h:365-486 | the same slot by slot, except that the core goes idle when nobody can run or slot 1 is the nearest |
| Scheduler.TickIdleIsSafe | core/interrupt.h:136-207 | keeps exclusive execution |
| Scheduler.TickNonIdleIsSafe | core/interrupt.h:209-360 | keeps exclusive execution and always resumes a thread, so the path without a return value is not reached |
| Scheduler.YieldSafeExactly | core/interrupt.h:365-486 | keeps exclusive execution if and only if the thread is no longer RUNNING or a successor above slot 1 is READY |
| Scheduler.LonelyYieldLoses | core/input/mouse.h:61 | one core with one thread and nobody ready: a plain yield leaves it RUNNING on no core |
| Scheduler.LostForever | core/interrupt.h:365-486 | such a thread stays RUNNING and on no core in every run in which no process ends |
| Scheduler.RunKeepsSeats | core/interrupt.h:136-486 | over every run, unsafe yields included, no thread but idle is on two cores |
| Scheduler.RunIsExclusive | core/interrupt.h:136-486 | over every run of ticks, plain yields that are safe, wake-ups, starts, ends and block-and-yield steps no thread runs on two cores and every RUNNING thread runs on one |
| Scheduler.RunIsExclusiveExactly | core/interrupt.h:136-486 | over every run in which no process ends, that holds at the end if and only if every plain yield was safe |
| Scheduler.TickComesCloser | core/interrupt.h:289-334 | each tick or yield of a core brings it strictly closer to a thread that stays READY, on every path |
| Scheduler.BoundedWaiting | core/interrupt.h:435-486 | in every run, unsafe yields included, a thread that stays READY sees fewer ticks and yields of any one core than its cyclic distance, which is below the number of threads |
| Scheduler.StaysActive | core/interrupt.h:209-486 | in every run that neither blocks nor ends it, a thread that was READY or RUNNING is READY or RUNNING at the end |
| Scheduler.RunsAgain | core/interrupt.h:209-486 | in every run with safe yields that neither blocks nor ends it, such a thread has run on some core by the time any one core has ticked as often as there are other slots |
| Scheduler.NobodyOversleeps | core/interrupt.h:67-79 | after a tick or yield of any core no sleeper is left whose time has come |
| Scheduler.BlockTakesEffect | core/interrupt.h:365-486 | a thread that blocks is off its core in the state it asked for, with its wake-up time, or READY if that has passed |
| Scheduler.BlockedUntilWoken | core/interrupt.h:67-79 | no step makes a blocked thread ready but its own wake-up or, for a sleeper, its time |
| Scheduler.WokenGoesOn | core/network/af_inet/tcp.h:369-375 | a thread that is woken or started is READY or RUNNING from then on in every run that neither blocks nor ends it |
| Scheduler.ProcessEnds | core/scheduler.h:1092-1107 | when a process ends, exactly its threads are ended |
| Scheduler.EndsAtNextTick | core/scheduler.h:1108-1128 | a thread that ends itself is dead and off its core after the core's next tick |
| Scheduler.GoneForever | core/interrupt.h:309-313 | a thread that has ended never runs again, in every run in which it does not block on its way out |
| FatChains.ChainIsDetermined | core/filesytem/fat32.h:330-358 | a table holds at most one chain from a given cluster |
| FatChains.FreeIsInNoChain | core/filesytem/fat32.h:1145-1178 | a cluster with a zero entry belongs to no chain |
| FatChains.AppendToChain | core/filesytem/fat32.h:750-759 | linking a free cluster behind a chain's last one lengthens that chain and keeps all chains disjoint, acyclic and terminated |
| FatChains.NewChain | core/filesytem/fat32.h:1384 | ending a free cluster adds one one-cluster chain |
| FatChains.FreeingOneChain | core/filesytem/fat32.h:877-883 | zeroing exactly one chain's entries removes that chain and keeps the others |
| FatVolume.Volume.SetFatEntry | core/filesytem/fat32.h:683-709 | updates the primary entry to the value's lower 28 bits, every mirror's 128-entry sector equals the primary's afterwards, and no other sector changes |
| FatVolume.Volume.SetEntryOnCreate | core/filesytem/fat32.h:1179-1206 | updates the primary entry; the mirrors' sector gets the boot sector, word for word, so it is mirrored if and only if the primary's equals that |
| FatVolume.MirrorAgreesExactly | core/filesytem/fat32.h:1202-1205 | all mirrors agree after that if and only if there are none or the primary's sector equals the boot sector |
| FatVolume.Volume.FindBlankCluster | core/filesytem/fat32.h:1145-1178 | the lowest free cluster; 0 exactly when there is none |
| FatVolume.Volume.ExpandFile | core/filesytem/fat32.h:750-759 | lengthens exactly the named chain by one cluster that was in no chain, ended with 0x0FFFFFF8 and mirrored on every table, or changes nothing |
| FatVolume.Volume.FreeChain | core/filesytem/fat32.h:877-883 | terminates, zeroes exactly the clusters of one chain, keeps every other chain, mirrors every sector it touches and keeps every mirrored sector mirrored |
| FatVolume.Volume.FindDirentSlot | core/filesytem/fat32.h:1312-1330 | the first unused entry of the directory, or the last cluster when all are taken |
| FatVolume.Volume.ExtendDirent | core/filesytem/fat32.h:1207-1254 | appends an erased cluster to the directory, uses up no other free cluster and writes no mirror |
| FatVolume.Volume.NewDirent | core/filesytem/fat32.h:1255-1273 | field by field: the name, the attribute, the time stamps, a size of zero and the two halves of the lowest free cluster |
| FatVolume.Volume.AddDirent | core/filesytem/fat32.h:1312-1342 | puts an entry with exactly those fields into the first unused slot, lengthening only the directory and only when it is full |
| FatVolume.DirentNamesCluster | core/filesytem/fat32.h:251-252 | the first cluster read from an entry with those fields is the one it was made with |
| FatVolume.NewDirectoryReads | core/filesytem/fat32.h:1343-1382 | a new directory's cluster holds `.` leading to itself, `..` leading to the parent, and zeros |
| FatVolume.Volume.Create | core/filesytem/fat32.h:1274-1386 | adds one one-cluster chain, ended with 0x0FFFFFF8, named by a new entry with the given name and attribute, lengthens at most the parent, uses up no other cluster, keeps every other chain and every other file's bytes; a new directory holds `.` and `..`; the mirrors change in the new cluster's sector only, which is mirrored if and only if the primary's equals the boot sector |
| FatDirectory.SlotTakenExactly | core/filesytem/fat32.h:1312-1330 | the new entry's slot counts as taken if and only if the name begins with neither 0 nor 0xE5 |
| FatDirectory.CreateAll | core/filesytem/fat32.h:1274-1386 | after any number of creates in one directory with enough free clusters, every file made is listed with its own name, attribute and first cluster at a place of its own, every entry in use before is unchanged, each new file has a chain of its own, and every other file keeps its bytes |
| FatVolume.OtherFilesKept | core/filesytem/fat32.h:1274-1386 | a change confined to one chain and to clusters of no chain keeps the bytes of every other file |
| FatVolume.Volume.ReadFile | core/filesytem/fat32.h:414-464 | exactly the bytes from the offset to the smaller of the request's end and the file's end, byte for byte from the clusters of the chain; a request whose end wraps in 64 bits reads on to the end of the chain and fails with -3; -1 without a first cluster |
| FatVolume.Volume.WriteFile | core/filesytem/fat32.h:803-861 | the chain's bytes from the offset on become the buffer's, byte for byte, cut at the end of the chain with -4, and the others stay; -2 beyond the file; no byte outside the chain changes |
| FatVolume.Volume.WriteBytes | core/filesytem/fat32.h:792-861 | a file without a first cluster gets a new one-cluster chain and keeps every other chain, or -6 exactly when no cluster is free; then as above |
| FatVolume.Volume.WriteThenRead | core/filesytem/fat32.h:805-858 | a write inside the chain followed by any read gives the written bytes where they were written and the old ones elsewhere |
| Checksum.FoldStep | core/network/af_inet/tcp.h:56-57 | one turn of the fold loop keeps the one's-complement value |
| Checksum.Fold | core/network/af_inet/tcp.h:56-57 | the loop ends with the one's-complement value of the sum |
| Checksum.TcpChecksum | core/network/af_inet/tcp.h:16-61 | the swapped complement of the folded 32-bit sum of pseudo header with protocol 6, header and payload, odd lengths included, and, stored in any cleared field, makes everything sum to 0xFFFF |
| Checksum.OnesOnTheWire | core/network/af_inet/tcp.h:23-54 | so with it stored, low byte first, the bytes of pseudo header, header and payload sum to a multiple of 65535, for TCP and UDP |
| Checksum.WordsAreWeight | core/network/af_inet/tcp.h:31-54 | adding words with an odd last byte padded is adding the bytes with weights 256 and 1 in turn |
| Checksum.TcpChecksumVerifies | core/network/af_inet/tcp.h:16-61 | stored in its cleared field, it makes everything sum to 0xFFFF, and the 32-bit sum did not wrap |
| Checksum.NetworkChecksum | core/network/af_inet/af_inet.h:160-183 | the complement of the folded little-endian sum, and, stored in any cleared field, makes the buffer sum to 0xFFFF |
| Checksum.BufferSumsToOnes | core/network/af_inet/af_inet.h:160-183 | so with it stored, low byte first, the bytes of the buffer sum to a multiple of 65535 |
| Checksum.WordsSwap | core/network/af_inet/af_inet.h:160-183 | little-endian and byte-swapped big-endian sums differ by a multiple of 65535 and vanish together, for every buffer |
| Checksum.LittleIsBig | core/network/af_inet/af_inet.h:160-183 | so the little-endian form stores the bytes of the big-endian one |
| Checksum.NetworkChecksumVerifies | core/network/af_inet/af_inet.h:160-183 | stored in its cleared field, it makes the buffer sum to 0xFFFF |
| Checksum.UdpChecksum | core/network/af_inet/udp.h:200-240 | the complement of the folded swapped sum, all ones instead of zero, and, stored in any cleared field, makes the datagram with its pseudo header of protocol 17 sum to 0xFFFF |
| Checksum.UdpChecksumVerifies | core/network/af_inet/udp.h:200-240 | equals the value of the big-endian sum, is never zero, and makes the datagram sum to 0xFFFF |
| Checksum.SwapAgain | libs/mem/mem.h:181-184 | `htons` is its own inverse and commutes with complement |
| Transcode.Utf8ToUtf16 | core/exe/common.h:198-261 | the units of the decoded code points, as many whole ones as the buffer holds, for every input |
| Transcode.Utf16ToUtf8 | core/exe/common.h:262-320 | the bytes of the decoded code points, as many whole ones as the buffer holds, for every input |
| Transcode.FrontByNumbers | core/exe/common.h:211-240 | what the UTF-8 loop takes from the front of any input, by the range of the lead byte; U+FFFD for one byte otherwise |
| Transcode.UnitsByNumbers | core/exe/common.h:242-257 | a code point below 0x10000 is one unit, any other a surrogate pair that spells it less 0x10000 |
| Transcode.BytesByNumbers | core/exe/common.h:289-316 | the shortest UTF-8 form, its length by the size of the code point and its bits in order |
| Transcode.PairByNumbers | core/exe/common.h:271-287 | what the UTF-16 loop takes: a pair only when its low half is not the last unit |
| Transcode.Fill16Longest | core/exe/common.h:242-257 | the buffer gets the longest run of whole code points that fits |
| Transcode.Fill8Longest | core/exe/common.h:289-316 | the same for UTF-8 |
| Transcode.CharDecodes | core/exe/common.h:211-240 | what the grammar of RFC 3629 accepts decodes to a code point whose encoding it is |
| Transcode.UnitsDecode | core/exe/common.h:271-287 | UTF-16 without a split pair decodes to what was encoded, surrogate pairs included |
| Transcode.RoundTripExactly | core/exe/common.h:198-320 | through buffers with room for the string, bytes and terminator return unchanged if and only if the string satisfies the grammar |
| Transcode.RoundTrip | core/exe/common.h:198-320 | every well-formed UTF-8 string returns unchanged |
| Calendar.YearDaysGregorian | core/time.h:36-61 | counting year by year agrees with the Gregorian rule in closed form |
| Calendar.MonthDaysGregorian | core/time.h:41-57 | counting month by month agrees with the closed form (367m - 362)/12 less the short February |
| Calendar.DaysSinceEpoch | core/time.h:44-61 | the days of the years, months and days before the date, in 64 bits; from 1970 on, the Gregorian day number in closed form |
| Calendar.SplitDays | core/syscall/syscall3.h:602-625 | for every day count the loops end with a day that the month has and whose Gregorian day number it is |
| Calendar.DateIsDetermined | core/time.h:107-116 | two valid dates with the same seconds are the same |
| Calendar.BcdRoundTrip | core/time.h:20-29 | two digits survive packing and unpacking |
| Calendar.ReadBackExactly | core/time.h:97-116 | a date without its century stands for the same second if and only if the century register fits |
| Calendar.Rtc.WriteDatetime | core/time.h:268-311 | each register holds its number, or its two decimal digits, and together they show the date with the century they had before |
| Calendar.Rtc.SetTime | core/syscall/syscall3.h:586-627 | writes the Gregorian date and time of day that stand for exactly the given seconds |
| Calendar.Rtc.EpochSeconds | core/time.h:70-116 | the seconds of the date the registers show, by the Gregorian day number, in 64 bits |
| Calendar.Rtc.SetThenRead | core/syscall/syscall3.h:586-627 | gives the count back if and only if the century register fits |

## Left out

- Decrease: does not clear `memory_map` entries; the source indexes it with a whole page entry, so no frame comes back and no claim about frames fits (core/scheduler.h:763-775).
- Increase: the page must lie in the low half, below HM, like every address its callers pass.
- SysFork: the parent's tables must be its own in full and its four stack pages mapped. A parent that is itself a child cloned onto stale frames is excluded, because its unowned words lead to frames of which nothing is known; by `ForkRun` no such parent arises while free frames read as zero. Descriptor tables, file tables and thread records of the child are not modelled.
- CloneCr3: excludes the same parents as SysFork.
- SendEnter: tests the flag and goes to sleep in one step. The source does not lock in between (core/network/af_inet/tcp.h:96-100), so an acknowledgement that comes there would find no sleeper to wake.
- SendCommit: sets the flag, the length and the bytes in one step. The source sets flag and length before it copies and takes no lock (core/network/af_inet/tcp.h:104-107), so a retry pass in between would resend the old bytes under the new length.
- SysMmap: private anonymous mappings only, and the pages from the chosen address on lie below HM; shared and file mappings are not modelled.
- FindStackSlot: some slot must be vacant, because the search in the source has no lower bound.
- RegisterStack: the same; StackRun asks it only of the starts.
- WriteBytes: the path lookups that fetch and store the first cluster and the size in the directory entry are parameters and results; a file without a first cluster has size 0.
- Create: a cluster is free for the file and, if the parent directory is full, a second one for it; the path is already resolved to the parent's first cluster and names are in their 11-byte form.
- FreeChain: `fat32_unlink_file` looks the path up after deleting its entry, so freeing is claimed for truncate and rmdir only.
- TcpChecksumVerifies: header and payload together stay below 0x1FF00 bytes, beyond which the 32-bit sum could wrap; the same bound holds for the other two forms.
- SetTime: the year is unbounded; the source's is a 32-bit int, which no second count before the year 2147483648 exceeds.
- EpochSeconds: assumes no clock update in progress and a month of at most 13; beyond that the source reads past its table of months.
- TCP handshake, FIN and shutdown, out-of-window resets, and delivery liveness: the protocol starts from two agreeing ESTABLISHED sockets.
- Signals, futexes, `sys_clone` stacks and blocking without an immediate yield: not steps of the scheduler model.
- Disk and port failures: sector reads and writes succeed; a lost segment stands for a failed address lookup.
- FAT entries beyond the last cluster of the data area: the table has one entry per cluster.
- `increase_paging_of_process`: an unused variant.
- Datagram length records and `handle_stream_accept`: only the backlog's push and pull are modelled.
- `subtract_time`, time zones, path and mount resolution, terminals, executable loaders, drivers and assembly: hardware effects or string plumbing that would add only easy members.
