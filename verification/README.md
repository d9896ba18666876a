# Tsukasa kernel, modelled and proved

A Dafny model of the parts of the Tsukasa kernel whose correctness is hardest to see by reading: memory
management, the scheduler, the FAT12 driver, the descriptor layer, shared memory, the event queues, and
three small kernels of arithmetic and text. `dafny verify dfyconfig.toml` checks everything.

C code that updates state in place is modelled by classes with the same fields, or by methods with the same
loops; each such method is proved against a specification on plain values, and what the code is for is
proved about that specification. Every claim is for all inputs, all runs or all reachable states.

## What is modelled

**Physical pages** (`pmm.dfy`). The bitmap, the free counter and the "nothing is free below" hint. An
allocation takes the lowest free run, and fails exactly when no run of that length exists anywhere, although
the search starts at the hint and skips ahead.

**Page tables** (`page_tables.dfy`, `vmm_x64.dfy`). Memory is a map from frames to tables of 512 entries; a
ghost forest says where each table sits. From its shape (every table frame has one parent entry) it follows
that the four-level tree behaves as a flat partial map, and what a call leaves behind is also told the way the processor
reads it: table by table from the root, with the bits of an address and of an entry as numbers. After a map page i
of the range runs to frame i of the frames asked for; after an unmap none does. Map and unmap are all or nothing for
every address space at once; tear-down gives back every table of one address space exactly once and nothing else.
Two things the code does not do. `vmm_protect_pages` is not all or nothing: a call leaves every translation as
it was if and only if the request is refused or each page of the leading run of mapped pages already carries the
flags asked for, and `VmmX64.ProtectRun` maps one page, protects two and finds the one changed. And the range
check multiplies the page count by the page size in 64 bits, so that a count of 2^52 + 1 passes for one page; it
says what it means exactly for counts below 2^52 or with a remainder that would be refused as well.

**TLSF heap** (`tlsf_mapping.dfy`, `tlsf_heap.dfy`, `tlsf.dfy`). Headers, footers, previous-free bits,
segregated doubly linked lists and both bitmap levels, with the invariant that ties them together. Every
request is covered, with its cast to 32 bits and the 32-bit rounding of the search. What a call comes to is a
function of the state before it, and the limits of the code come out of it:

- The heading comment of `mm/tlsf.c` gives first-level rows up to 128 MiB, but there are 25 rows indexed by
  the plain logarithm. The search for a 32-bit size starts inside the table exactly up to 2^25 - 2^20 and,
  because the rounding wraps around there, again from 0xF8000001 to 0xFA000000.
- Good fit holds of a 32-bit size exactly up to 0xF8000000, and the block found is at least the request exactly
  for requests up to 2^25 - 2^20; a request of 2^32 + 24 bytes is searched for, and answered, as one of 24, and
  one whose low 32 bits are below 24 may cut off a block shorter than the smallest payload.
- Splitting a block no larger than what is split off computes its remainder below zero. For requests below 256
  bytes this happens exactly when a free block of that very size exists; `Tlsf.WildRun` is such a run, with
  requests for 24 bytes only.

In every other case `tlsf_malloc` keeps the heap well formed.

**Scheduler** (`sched_model.dfy`, `sched_invariant.dfy`, `sched_fairness.dfy`, `sched_laws.dfy`, `run_queue.dfy`,
`process.dfy`). A state machine whose steps are the calls made under the scheduler lock, and its invariant, which
a step keeps if and only if it does not kill, end or block a process that is on a queue and does not block or
queue the idle process. Over runs of such steps the queues hold exactly the ready processes, no
wakeup of a waiting parent is lost, and a queued process waits at most four ticks for each place in its
queue. A child's exit code or the signal that ended it reaches the parent's waitpid over any run in between. Steps of
each kind that break the queues are shown within reach of `process_init`. The 256 linked queues
and the process table are a class that is proved to take the same steps.

**FAT12** (`fat12_names.dfy`, `fat12_volume.dfy`, `fat12_leaks.dfy`, `fat12_layout.dfy`,
`fat12.dfy`). The bytes of the image, with packed 12-bit links that share bytes and several copies of the table, refine
a volume of links, directory entries and clusters. A write succeeds exactly when there are enough clusters; then the file reads as what
was written unless the name begins with the byte 0xE5, which marks a deleted entry, or belongs to a
directory: in these two cases the write reports success and the read finds no file. Every other file keeps its chain
and its bytes, and the volume stays sound. But clusters leak, marked in use with no chain that has them: a write that
runs out of clusters leaks all it could take, and one that succeeds under a name beginning with 0xE5 leaks all it
took. A write leaks nothing if and only if it succeeds and its name is not such a one or there is nothing to write,
or it fails with nothing to take; `Fat12.LeakRun` fills a volume with clusters that no name leads to. All of this is
said of every path that is any number of slashes before a name, and `Fat12.ReadKnown` reads a volume given byte by
byte.

**Descriptors, pipes, paths and mounts** (`file_table.dfy`, `pipe.dfy`, `paths.dfy`, `mounts.dfy`).
Reference counts against descriptor slots over all tables; the pipe ring as a byte queue; path
normalization as resolution of names, from the working directory on; the mount search as longest prefix by whole
names. Copying a process's descriptor onto itself leaves a dangling slot exactly when it was the file's only one.

**Shared memory** (`shm_model.dfy`, `shm.dfy`, `shm_laws.dfy`), **event queues** (`event_policy.dfy`,
`event_queues.dfy`), **64-bit division** (`divider.dfy`), **the formatter and the theme file** (`kernel_format.dfy`,
`format_laws.dfy`, `theme_config.dfy`, `theme_text.dfy`, `theme_reader.dfy`, `theme_laws.dfy`). As long as a
queue is not full, a paint event put to it is delivered, waits, or has given its place to a later one of its window.
What the formatter prints evaluates back to its argument. What is written to the theme file is read back as
the same theme exactly when the theme is a valid one.

## Model

| member | source | states |
|---|---|---|
| Pmm.SkipAhead | mm/pmm.c:225-241 | A frame that is in use blocks every run it lies in, so the search may go on behind it without missing a run. |
| Pmm.NothingBelowHint | mm/pmm.c:72-86 | Because nothing is free below the hint, no run starts below it, and the search may start there. |
| Pmm.SearchExhausted | mm/pmm.c:225-243 | When the search runs past the last frame, no run of that length is free anywhere. |
| Pmm.TakeAndReturn | mm/pmm.c:219-268 | Taking a free run and giving it back restores the free frames exactly, and taking it lowers their number by its length. |
| Pmm.PutBitFrame | mm/pmm.c:35-50 | Writing one bit of a bitmap byte leaves the other seven as they were. |
| Pmm.TouchesBytes | mm/pmm.c:52-70 | A frame meets a byte range exactly when one of its bytes lies in it. |
| Pmm.Allocator.constructor | mm/pmm.c:112-212 | After boot the free frames are exactly those above 1 MiB that a usable range meets and no reserved one does, and counter and hint agree with them. |
| Pmm.Allocator.GetBit | mm/pmm.c:45-50 | The bit of a frame says whether it is free. |
| Pmm.Allocator.SetBit | mm/pmm.c:35-43 | Exactly one frame changes its state. |
| Pmm.Allocator.MarkRegion | mm/pmm.c:52-70 | Exactly the frames that meet the byte range change; empty ranges and frames beyond the bitmap are left alone. |
| Pmm.Allocator.RefreshFirstUsable | mm/pmm.c:72-86 | The hint is the lowest free frame, or the frame count when there is none. |
| Pmm.Allocator.RecomputeFreeFrames | mm/pmm.c:88-96 | The counter is the number of free frames. |
| Pmm.Allocator.ScanRun | mm/pmm.c:228-233 | Whether a run is free throughout, and otherwise the first frame of it that is not. |
| Pmm.Allocator.TakeRun | mm/pmm.c:234-239 | The run leaves the free frames, nothing else does, and the counter follows. |
| Pmm.Allocator.AllocPages | mm/pmm.c:219-244 | Returns and takes the lowest free run of that length; returns 0 exactly when nothing was asked for or no such run exists anywhere. |
| Pmm.Allocator.PutRun | mm/pmm.c:257-267 | The tracked frames of the run become free; the counter stays exact also when some of them were free already. |
| Pmm.Allocator.FreePages | mm/pmm.c:251-268 | Frees exactly the tracked frames of the run; address 0, unaligned addresses and empty runs change nothing. |
| Pmm.Allocator.Alloc | mm/pmm.c:214-217 | Takes the lowest free frame, or returns 0 exactly when there is none. |
| Pmm.Allocator.FreeFrame | mm/pmm.c:246-249 | Frees exactly that frame; zero, unaligned and untracked addresses change nothing. |
| Pmm.Allocator.AllocThenFree | mm/pmm.c:219-268 | An allocation followed by freeing what it returned leaves the free frames as they were. |
| PageTables.WordSplits | mm/vmm_x64.c:103-119 | The word stored for an address and flags gives back the same address bits and the same other bits (Intel SDM Vol. 3A, section 4.5). |
| PageTables.IndicesDetermine | mm/vmm_x64.c:139-209 | The four table indices determine the page. |
| PageTables.TablesUnshared | mm/vmm_x64.c:139-209 | A table is reached by one path of one address space only. |
| PageTables.WalkInTree | mm/vmm_x64.c:139-209 | A successful walk ends at a table of that address space whose path is the page's upper three indices. |
| PageTables.TranslateLeads | mm/vmm_x64.c:139-209 | A page translates as the processor walks: nine bits of the address for each level, through entries that are present, writable, open to users and no huge pages. |
| PageTables.SetLeafChangesOnePage | mm/vmm_x64.c:471-484 | Writing the leaf entry of a page changes the translation of that page of that address space and of no other page of any. |
| PageTables.SetLeafKeepsShape | mm/vmm_x64.c:471-484 | Writing leaf entries never disturbs the shape of the tables. |
| PageTables.HookKeepsShape | mm/vmm_x64.c:139-209 | A fresh table hooked into an absent entry keeps every table with one parent. |
| PageTables.HookKeepsTranslations | mm/vmm_x64.c:139-209 | Hooking in a zeroed table translates nothing new and nothing differently. |
| PageTables.PassPt | mm/vmm_x64.c:349-404 | Each step of the innermost tear-down loop passes one more table if the entry is present, never a huge page, never a table passed before. |
| PageTables.PassPd | mm/vmm_x64.c:349-404 | After its entries exactly the page directory itself is passed. |
| PageTables.SkipPd | mm/vmm_x64.c:349-404 | Skipping an absent directory leaves no table behind. |
| PageTables.FreedAll | mm/vmm_x64.c:349-404 | When the loops are done, exactly the tables of the address space have been freed, none of them free before. |
| PageTables.ForestWithout | mm/vmm_x64.c:349-404 | Without the tables of one address space the others are still well formed. |
| PageTables.RemainingAllocated | mm/vmm_x64.c:349-404 | Every remaining table is still marked allocated. |
| VmmX64.SpanCheckExact | mm/vmm_x64.c:54-77 | The range check accepts exactly the ranges that fit the user half if and only if the page count is below 2^52 or its remainder would be refused as well. |
| VmmX64.SpanCheckWraps | mm/vmm_x64.c:54-77 | 2^52 + 1 pages pass the check although they do not fit. |
| VmmX64.RequestExactly | mm/vmm_x64.c:54-101 | What is refused, in numbers: no pages, addresses off a page boundary, flags without READ, and ranges outside the user range for a user or outside the kernel range for the kernel. |
| VmmX64.PteFlagsOutsideMask | mm/vmm_x64.c:103-119 | The flag bits of an entry never touch its address bits, and every entry written is present. |
| VmmX64.EntryGrants | mm/vmm_x64.c:103-119 | Bit by bit: writable, user, global and both cache bits follow their request flags, and no-execute is set exactly without EXEC. |
| VmmX64.EditOneMore | mm/vmm_x64.c:465-485 | One more page of the range is edited, and the rest of the range and all other pages are as they were. |
| VmmX64.RollbackRestores | mm/vmm_x64.c:471-482 | Clearing what a partial map wrote over unmapped pages gives the old translations back. |
| VmmX64.MappedRuns | mm/vmm_x64.c:465-485 | Where a range has been mapped, page i of it leads to frame i of the frames asked for, with the rights asked for, for every frame that an entry can hold. |
| VmmX64.ClearedGone | mm/vmm_x64.c:521-538 | Where a range has been cleared, no page of it translates. |
| VmmX64.ReflaggedGrants | mm/vmm_x64.c:566-583 | Where a range has new flags, each page leads to the frame it led to, with the rights asked for. |
| VmmX64.AppliedElsewhere | mm/vmm_x64.c:447-592 | All pages outside the range and all other address spaces translate as before. |
| VmmX64.LeadingIs | mm/vmm_x64.c:566-583 | The loop stops at the first page of the range that is not mapped. |
| VmmX64.ReflagLeaves | mm/vmm_x64.c:566-583 | Giving mapped pages new flags changes no translation if and only if they have those flags already. |
| VmmX64.ProtectRun | mm/vmm_x64.c:447-592 | From boot: an address space is made, one page mapped writable and two protected read-only; the call fails and the one page is read-only. |
| VmmX64.NewRoot | mm/vmm_x64.c:286-319 | A new root with an empty user half translates no user page and disturbs no other address space. |
| VmmX64.Vmm.constructor | mm/vmm_x64.c:238-255 | The loader's root becomes an address space of its own exactly when it is a table with an empty user half in a frame that is not free. |
| VmmX64.Vmm.NextTable | mm/vmm_x64.c:139-209 | Follows an entry or hooks in a zeroed table; fails to make one only when no frame is free; changes no translation. |
| VmmX64.Vmm.WalkToPt | mm/vmm_x64.c:139-209 | Finds the leaf table of a page; with create it fails only when no frame is free; no translation changes; at most three frames become tables. |
| VmmX64.Vmm.ClearPages | mm/vmm_x64.c:521-538 | Exactly the translations of the range are removed. |
| VmmX64.Vmm.QueryPage | mm/vmm_x64.c:406-445 | Reports exactly the flat map, and the entry that the processor's walk ends at; None for unaligned and non-user pages; changes nothing. |
| VmmX64.Vmm.QueryRange | mm/vmm_x64.c:512-519 | Whether every page of the range is mapped. |
| VmmX64.Vmm.UnmapPages | mm/vmm_x64.c:499-541 | All or nothing: succeeds exactly when every page is mapped, and then no page of the range translates and all others do as before; otherwise changes nothing. |
| VmmX64.Vmm.Rollback | mm/vmm_x64.c:471-482 | Afterwards every translation is as before the failed call. |
| VmmX64.Vmm.MapOnePage | mm/vmm_x64.c:466-484 | Page i of the range is mapped to the i-th frame, or everything is as before the call. |
| VmmX64.Vmm.MapPages | mm/vmm_x64.c:447-497 | After success page virt / 4096 + i leads to frame phys / 4096 + i for every i (below 2^40, the frames an entry can hold), with the rights asked for, and all other pages translate as before; the range was unmapped. Failure leaves every translation of every address space as it was, and happens only for a bad request, a mapped page or lack of frames; every frame that leaves the allocator is a table, at most three for each page. |
| VmmX64.Vmm.ProtectPages | mm/vmm_x64.c:543-592 | Gives the leading run of mapped pages the rights asked for, keeps their frames and all other pages, and succeeds exactly when that run is the whole range; the call leaves every translation as it was if and only if each page of that run carries those flags already, or the request is refused. |
| VmmX64.Vmm.CreateAddressSpace | mm/vmm_x64.c:286-319 | A new address space translates no user page, shares the kernel half of the current one, takes one frame, and leaves all others alone. |
| VmmX64.Vmm.FreeDirectory | mm/vmm_x64.c:349-404 | Frees the page tables under one directory and the directory. |
| VmmX64.Vmm.FreeSubtree | mm/vmm_x64.c:349-404 | Frees everything under one PDPT and the PDPT. |
| VmmX64.Vmm.FreeTables | mm/vmm_x64.c:349-404 | Frees exactly the tables of one address space, none of which was free. |
| VmmX64.Vmm.DestroyAddressSpace | mm/vmm_x64.c:349-404 | Frees each table of the address space once and no leaf frame, kernel table or foreign table; refuses the current address space and 0. |
| SchedInvariant.TickKeeps | proc/process.c:1124-1217 | After a tick the current process runs, is on no queue, nobody queued has a better priority, and the idle process runs only when all queues are empty. |
| SchedInvariant.MarkZombieKeeps | proc/process.c:446-479 | An unqueued process can die without upsetting the tables; its waiting parent is woken. |
| SchedInvariant.WaitKeeps | proc/process.c:789-850 | Reaping, answering and blocking in waitpid keep the tables, the families and the no-lost-wakeup property. |
| SchedInvariant.BlockKeeps | proc/process.c:789-850 | A process that found no matching zombie child may go to sleep: nobody oversleeps. |
| SchedInvariant.ReapKeeps | proc/process.c:250-322 | A reaped child leaves its parent's list and no other, for it was on no other. |
| SchedInvariant.SignalKeeps | proc/process.c:852-894 | A signal that wakes a sleeper queues it once. |
| SchedInvariant.SetPriorityKeeps | proc/process.c:945-971 | Changing a priority moves a ready process to the right queue. |
| SchedInvariant.SpawnKeeps | proc/process.c:525-595 | A new process joins the table, its parent's children and its queue; parent and pid stay unique. |
| SchedInvariant.ExitKeeps | proc/process.c:751-766 | A process that is on no queue may end. |
| SchedInvariant.KillKeeps | proc/process.c:852-894 | Signals keep the invariant, SIGKILL to processes that are on no queue. |
| SchedInvariant.YieldKeeps | proc/process.c:1219-1227 | Giving up the slice keeps the invariant. |
| SchedInvariant.QueuedZombieBreaks | proc/process.c:880-881 | Killing a queued process leaves a dead process on a queue. |
| SchedInvariant.QueuedSleeperBreaks | proc/process.c:837-844 | Blocking a process that is on a queue, or the idle process, breaks the queues. |
| SchedInvariant.QueuedIdleBreaks | proc/process.c:945-971 | Changing the priority of the ready idle process puts it on a queue. |
| SchedInvariant.StepKeepsExactlyIfAllowed | proc/process.c:751-971 | A step keeps the invariant if and only if it does not kill, end or block a queued process and does not block or queue the idle process. |
| SchedInvariant.KillReachesBreak | proc/process.c:852-894 | After the first spawn, SIGKILL for the child breaks the queues, from a state that keeps the invariant. |
| SchedInvariant.WaitReachesBreak | proc/process.c:789-894 | A blocked process that signals itself is queued, and its waitpid then puts it to sleep on its queue. |
| SchedInvariant.PriorityReachesBreak | proc/process.c:945-971 | Right after boot a new priority for the idle process queues it. |
| SchedInvariant.RunKeeps | proc/process.c:1124-1227 | Over any run of such steps the invariant holds. |
| SchedInvariant.InitialInv | proc/process.c:597-662 | It holds after process_init. |
| SchedInvariant.ReachableStates | proc/process.c:155-237 | In every reachable state the 256 queues hold exactly the ready non-idle processes, each once and on its level, and no process sleeps in waitpid past a zombie child that its call matches, for all four target forms. |
| SchedInvariant.OthersKeepTargets | proc/process.c:789-850 | No step but its own makes a process forget what it waits for, so that no sleeper drops out of the no-lost-wakeup property. |
| SchedLaws.StepKeepsEnded | proc/process.c:461-479 | No step changes the status of a dead process, gives its number to another, or takes it away but into a waitpid. |
| SchedLaws.RunKeepsEnded | proc/process.c:461-479 | Over any run a dead process keeps its status until it is reaped. |
| SchedLaws.AnswersStatus | proc/process.c:806-822 | A waitpid that answers with the number of a dead process answers with its status. |
| SchedLaws.ExitStatusArrives | proc/process.c:751-850 | A process exits with a code: after any run, a waitpid that answers with its number answers with code % 256 * 256. |
| SchedLaws.KillStatusArrives | proc/process.c:852-894 | The same for SIGKILL: the status is 9. |
| SchedLaws.SignalStatusArrives | proc/process.c:490-523 | The same for a signal that ends the running process at a tick: the status is the signal. |
| SchedLaws.ParentLearns | proc/process.c:751-850 | Right after the exit of a child that it lists, the parent's waitpid for that child answers with its number and code % 256 * 256. |
| SchedLaws.FirstInList | proc/process.c:806-833 | A waitpid answers with the first dead child of the list that its target asks for, for all four target forms; without one, "no such child" exactly when none is listed. |
| SchedLaws.SignalEnds | proc/process.c:490-523 | The lowest pending signal that is not masked ends the running process at the tick, when it has the default action, or a handler and is SIGINT or SIGKILL. |
| SchedLaws.SignalSpares | proc/process.c:490-523 | A signal that is ignored or handled is taken from those pending and leaves the process alive. |
| SchedLaws.SignalPends | proc/process.c:852-894 | A signal sent is pending for that process and no other, and wakes it if it sleeps. |
| SchedLaws.MaskBlocks | proc/process.c:1069-1097 | Signal by signal: 0 blocks, 1 unblocks, 2 sets; SIGKILL is never blocked. |
| SchedLaws.HandlerTaken | proc/process.c:1040-1067 | Exactly that handler of that process changes, and for SIGKILL only to the default. |
| SchedLaws.PriorityTaken | proc/process.c:945-971 | The process has the priority asked for and, when ready, is on the queue of that level; no other process changes. |
| SchedLaws.KeepsProcessor | proc/process.c:1149-1177 | With two ticks or more left and nobody better queued, the running process keeps the processor, one tick shorter. |
| SchedLaws.LosesProcessor | proc/process.c:1149-1177 | Otherwise it joins the tail of its queue with four new ticks, and the best queue is looked up again. |
| SchedLaws.YieldGivesWay | proc/process.c:1219-1227 | A process that yields is put at the tail of its queue by the next tick, whatever was left of its slice. |
| SchedLaws.FirstOfBestRuns | proc/process.c:1180-1190 | The head of the best queue runs and leaves it. |
| SchedLaws.SpawnedChild | proc/process.c:525-595 | A child has the next number, its own group, the priority of its parent, four ticks and no signals, and is first in its parent's list. |
| SchedFairness.StepRank | proc/process.c:1149-1190 | Every call keeps or lowers the number of ticks within which a queued process runs, and every tick lowers it or runs the process. |
| SchedFairness.TickRank | proc/process.c:1124-1217 | A tick brings a queued process one tick closer to the processor, or gives it to it. |
| SchedFairness.RankBoundsWait | proc/process.c:1149-1190 | A queued process runs within as many ticks as its rank. |
| SchedFairness.BoundedWaiting | proc/process.c:155-193 | The process at position i of its queue runs within 4 (i + 1) ticks, whatever is called meanwhile, as long as no better process can run and it is not moved to another level. |
| RunQueue.SpellsPush | proc/process.c:155-174 | The link writes of a push spell the queue with the process at its tail. |
| RunQueue.SpellsPop | proc/process.c:176-193 | The link writes of a pop spell the queue without its head. |
| RunQueue.SpellsRemove | proc/process.c:204-237 | The link writes of a removal spell the queue without the process, wherever it stood. |
| RunQueue.AllSpelledUnlink | proc/process.c:204-237 | All other queues still read as they did. |
| RunQueue.RunQueues.constructor | proc/process.c:614-617 | All queues empty. |
| RunQueue.RunQueues.Push | proc/process.c:155-174 | The process joins the tail of its level; all 256 lists stay well linked. |
| RunQueue.RunQueues.BestPriority | proc/process.c:195-202 | The best level with anyone on it. |
| RunQueue.RunQueues.Pop | proc/process.c:176-193 | The head of the best queue leaves it; nothing when all are empty. |
| RunQueue.RunQueues.PopHead | proc/process.c:178-190 | A level's queue loses its head. |
| RunQueue.RunQueues.Remove | proc/process.c:204-237 | The process leaves its level's queue if it is on it; otherwise nothing changes. |
| RunQueue.RunQueues.Relink | proc/process.c:218-232 | The pointer writes that unlink one process. |
| Process.Scheduler.constructor | proc/process.c:597-662 | The table and queues of process_init. |
| Process.Scheduler.FindByPid | proc/process.c:137-144 | The first slot in use with that pid. |
| Process.Scheduler.Wake | proc/process.c:453-458 | A blocked process becomes ready and is queued; others are left alone. |
| Process.Scheduler.WakeParent | proc/process.c:446-459 | Wakes the parent if it is blocked. |
| Process.Scheduler.MarkZombie | proc/process.c:461-479 | The step of the machine, over the linked queues, for queued processes too. |
| Process.Scheduler.PickLowest | proc/process.c:481-488 | The lowest signal of a set. |
| Process.Scheduler.PrepareSignal | proc/process.c:490-523 | Takes the lowest deliverable signal and applies its default action. |
| Process.Scheduler.AccountCurrent | proc/process.c:1149-1177 | Charges one tick; the process stays or is queued with a new slice. |
| Process.Scheduler.RunNext | proc/process.c:1180-1190 | The head of the best queue, or the idle process, runs. |
| Process.Scheduler.ScheduleTick | proc/process.c:1124-1217 | The code takes the machine's tick. |
| Process.Scheduler.YieldSlice | proc/process.c:1219-1227 | The code takes the machine's yield. |
| Process.Scheduler.FreeSlot | proc/process.c:146-153 | The first slot not in use. |
| Process.Scheduler.FillSlot | proc/process.c:525-595 | Fills a slot, links the child to its parent and queues it. |
| Process.Scheduler.SpawnKernel | proc/process.c:686-701 | The machine's spawn; succeeds exactly when a slot is free. |
| Process.Scheduler.ExitCurrent | proc/process.c:751-766 | The machine's exit, for any code; the state stays valid exactly when the process is on no queue. |
| Process.Scheduler.KillPid | proc/process.c:852-894 | The machine's kill with its result code; the state stays valid exactly unless SIGKILL hits a queued process. |
| Process.Scheduler.SetPriorityOf | proc/process.c:945-971 | The machine's priority change with its result code; the state stays valid exactly unless the idle process is put on a queue. |
| Process.Scheduler.SetSignalMask | proc/process.c:1069-1097 | The machine's step: blocks, unblocks or sets by `how`, -1 exactly for no such process or another `how`; no mask ever covers SIGKILL. |
| Process.Scheduler.RegisterHandler | proc/process.c:1040-1067 | A handler is registered for a signal in range; SIGKILL only gets the default. |
| Process.Scheduler.ReapChild | proc/process.c:250-322 | Unlinks a child and gives its slot back. |
| Process.Scheduler.ScanChildren | proc/process.c:806-823 | The first matching zombie child, and whether any child matches. |
| Process.Scheduler.WaitPass | proc/process.c:789-850 | One pass of waitpid: the machine's step and its answer, which is the number and status of the first dead child asked for (SchedLaws.FirstInList, ExitStatusArrives); only the caller's own sleep ends with it; the state stays valid exactly unless it puts a queued process or the idle one to sleep. |
| TlsfMapping.SearchedIsEnough | mm/tlsf.c:137-157 | Good fit: up to 0xF8000000 every block filed at or above the class where the search starts is large enough, also when rounding carries into the next row. |
| TlsfMapping.RoundUpExact | mm/tlsf.c:149-157 | The 32-bit sum is the rounded size exactly up to 0xF8000000; above, it wraps around to the difference less one. |
| TlsfMapping.GoodFitExactly | mm/tlsf.c:149-157 | Good fit holds of a 32-bit size if and only if its rounding does not wrap around. |
| TlsfMapping.WrappedSearch | mm/tlsf.c:149-157 | The search for 0xF8000008 bytes starts at the class of 7 bytes and takes a block of 24. |
| TlsfMapping.EnoughIsSearched | mm/tlsf.c:137-157 | A block that reaches the rounded size, as 32 bits hold it, is filed where the search looks. |
| TlsfMapping.RaisedReaches | mm/tlsf.c:149-157 | The rounded size, before the sum is cut to 32 bits, lies in a class whose smallest size reaches the request. |
| TlsfMapping.ClassInTable | mm/tlsf.c:25-143 | A size is filed inside the 25 rows exactly below 2^25; the column always fits. |
| TlsfMapping.ClassSpans | mm/tlsf.c:137-143 | Row fl holds the sizes from 2^fl to 2^(fl + 1), column sl the (sl + 1)-th sixteenth of them; sizes below 16 have a class each. |
| TlsfMapping.SearchInTable | mm/tlsf.c:149-157 | The search for a 32-bit size starts inside the table if and only if the size is at most 2^25 - 2^20 or lies from 0xF8000001 to 0xFA000000. |
| TlsfMapping.GoodFitForRequests | mm/tlsf.c:306-316 | For every size_t request whose search stays in the table, a block that the search can come to is as large as the request if and only if the request is at most 2^25 - 2^20. |
| TlsfMapping.TruncatedRequest | mm/tlsf.c:311-315 | A request of 2^32 + 24 bytes is searched for as one of 24. |
| TlsfHeap.HeaderFields | mm/tlsf.c:61-76 | Size and both status bits of a header word read back as written. |
| TlsfHeap.HeaderWord | mm/tlsf.c:61-76 | A header is the size, plus 1 for free and 2 for previous-free. |
| TlsfHeap.InsertKeepsLists | mm/tlsf.c:173-183 | Filing a block at the head of its list keeps all lists well linked and adds exactly that block. |
| TlsfHeap.RemoveKeepsLists | mm/tlsf.c:185-194 | Taking a block out, wherever it stands, keeps all lists and removes exactly that block. |
| TlsfHeap.WalkStaysInClass | mm/tlsf.c:173-194 | A walk down a list meets only listed blocks of that class. |
| TlsfHeap.WalkMeets | mm/tlsf.c:173-194 | Every listed block is met on the list of its class. |
| TlsfHeap.WalkRises | mm/tlsf.c:173-194 | No walk meets a block twice. |
| TlsfHeap.ReplaceKeepsEncoded | mm/tlsf.c:215-247 | Rewriting a stretch of blocks leaves all headers, footers and previous-free bits elsewhere right. |
| TlsfHeap.Carved | mm/tlsf.c:215-247 | A finished split or merge keeps tiling, tags, lists and "no two free neighbours". |
| TlsfHeap.PoolAdded | mm/tlsf.c:251-273 | A region written as one free block and a sentinel joins the heap without touching the other blocks. |
| Tlsf.Ffs | mm/tlsf.c:112-117 | The lowest set bit. |
| Tlsf.BitSetWhereHead | mm/tlsf.c:161-165 | Setting the class bits with a new head keeps bitmaps and lists in agreement. |
| Tlsf.BitClearedWhereNone | mm/tlsf.c:166-171 | Clearing them with the last block gone does, too, the row bit going with its last column. |
| Tlsf.RemainExact | mm/tlsf.c:236-240 | The remainder of a split, in 32 bits, is right if and only if the block is larger than what is split off; otherwise it wraps around and is always large enough for the split to be made. |
| Tlsf.CarveMeans | mm/tlsf.c:236-247 | An allocation makes of a block one in use, at least as large as asked for and less than 32 bytes larger, and a free one of all the rest exactly when that has room for 32 bytes. |
| Tlsf.WildSplitLeaves | mm/tlsf.c:97-102 | A split puts the footer of its rest outside the memory exactly when it is the wild split; otherwise into the last word of the block. |
| Tlsf.LowestBitIsFirst | mm/tlsf.c:197-211 | The lowest bit of the row, or else the lowest column of the next row that has any, is the first list with a block at or above the class where the search starts. |
| Tlsf.Heap.constructor | mm/tlsf.c:277-290 | Empty lists and bitmaps. |
| Tlsf.Heap.MarkClass | mm/tlsf.c:161-165 | Both bitmap levels get the class. |
| Tlsf.Heap.ClearClass | mm/tlsf.c:166-171 | The column bit goes, and the row bit exactly with the last column. |
| Tlsf.Heap.InsertBlock | mm/tlsf.c:173-183 | The block is listed; only link words change. |
| Tlsf.Heap.RemoveBlock | mm/tlsf.c:185-194 | The block is not listed any more; only link words change. |
| Tlsf.Heap.FindSuitable | mm/tlsf.c:197-211 | Returns the head of the first list with one at or above the class of the rounded size, for every 32-bit size whose search stays in the table; the block is large enough if and only if the size is at most 2^25 - 2^20; without one, no listed block reaches the rounded size. |
| Tlsf.Heap.ChoiceFits | mm/tlsf.c:306-316 | The block that a request comes to is free and listed, and it alone decides between the ways a call can end. |
| Tlsf.Heap.ExactFitGoesWild | mm/tlsf.c:236-247 | A request below 256 bytes ends in the wild split if and only if some free block is exactly as large as the request in whole words. |
| Tlsf.WildRun | mm/tlsf.c:306-355 | Two blocks of 24 bytes allocated, the first freed and 24 bytes asked for again: the wild split, in a heap just created. |
| Tlsf.Heap.TakeWhole | mm/tlsf.c:321-334 | A block without room for another is handed out whole. |
| Tlsf.Heap.SplitOff | mm/tlsf.c:321-328 | A larger block is cut in two, and the rest becomes a free block that is filed. |
| Tlsf.Heap.SplitHeaders | mm/tlsf.c:236-247 | The words that a split writes. |
| Tlsf.Heap.Malloc | mm/tlsf.c:306-335 | For every request: what the call comes to is told from the state before it. NULL only when no free block reaches the rounded request; the block handed out was the search's choice, is as large as the request if and only if that is at most 2^25 - 2^20, and has been carved; everything else and every live payload stays. A wild split writes the footer of its rest outside the memory. |
| Tlsf.Heap.HandOut | mm/tlsf.c:318-335 | From the block found on: split or whole, or the split that wraps around, told by the size of that block; the wrapped split writes outside the memory. |
| Tlsf.Heap.MarkFree | mm/tlsf.c:337-345 | The header says free and the last word of the block points back at it: the block reads as free while the tables still have it in use. |
| Tlsf.Heap.CoalescePrev | mm/tlsf.c:215-224 | Merges with the block before exactly when that is free. |
| Tlsf.Heap.CoalesceNext | mm/tlsf.c:226-234 | Merges with the block after exactly when that is free. |
| Tlsf.Heap.FileFreed | mm/tlsf.c:349-354 | The merged block gets its footer, the next block its bit, and the block is filed. |
| Tlsf.Heap.Free | mm/tlsf.c:337-355 | The block becomes free together with free neighbours; the heap stays well formed and every other live payload as it was. |
| Tlsf.Heap.AddPool | mm/tlsf.c:251-273 | A large enough region becomes one free block; a smaller one is ignored. |
| Tlsf.Heap.Create | mm/tlsf.c:277-298 | The control structure comes first and the rest is the first pool; NULL for no memory or too little. |
| Tlsf.Heap.FreeListsExact | mm/tlsf.c:173-194 | The lists hold exactly the free blocks, each once and on the list of its class. |
| Tlsf.Heap.PayloadsDisjoint | mm/tlsf.c:81-95 | Payloads of different blocks are disjoint, inside the memory and at least 24 bytes. |
| Fat12Names.RawRoundTrip | fs/fat12.c:106-136 | Decoding 11 name bytes and encoding the result gives them back exactly when they are padded with spaces only, in upper case and without a dot in the base. |
| Fat12Names.DottedName | fs/fat12.c:118-136 | Byte by byte: eight bytes of base and three of extension, cut or padded with spaces, in capitals. |
| Fat12Names.BareName | fs/fat12.c:118-136 | The same for a name without a dot. |
| Fat12Names.FirstByte | fs/fat12.c:118-136 | An encoded name never looks like the end mark, and like a deleted entry exactly when the name begins with 0xE5. |
| Fat12Names.StrToFat83 | fs/fat12.c:118-136 | Writes the 11 encoded bytes and nothing else. |
| Fat12Names.Matches | fs/fat12.c:139-146 | Compares the encoded names. |
| Fat12Layout.SetLink | fs/fat12.c:66-81 | Setting a 12-bit link gives it the value and leaves every other link alone, also those that share a byte with it. |
| Fat12Layout.TwoLinks | fs/fat12.c:54-81 | Three bytes of the table, read as one number, are two links of twelve bits, the even cluster's the lower; the pair begins at byte 3 c / 2. |
| Fat12Layout.EndMarks | fs/fat12.c:280-298 | A chain ends exactly at 0xFF8 to 0xFFF. |
| Fat12Layout.EntryMarks | fs/fat12.c:224-239 | Which first bytes and attribute bits make an entry unused, searched for, or a directory. |
| Fat12Layout.FreshEntry | fs/fat12.c:331-335 | A fresh entry, byte by byte. |
| Fat12Layout.CopiesApart | fs/fat12.c:66-81 | Bytes of different table copies are different bytes of the image. |
| Fat12Layout.LinkWritten | fs/fat12.c:66-81 | With the link set in all copies, one link has changed and the copies are still equal. |
| Fat12Layout.DirentWritten | fs/fat12.c:331-379 | Writing the bytes of one directory entry changes that entry only. |
| Fat12Layout.ClusterWritten | fs/fat12.c:366-371 | Writing inside one cluster changes that cluster only. |
| Fat12Layout.BootSectorFits | fs/fat12.c:150-183 | A boot sector that describes a FAT12 volume no larger than its image gives a layout that fits, with no product wrapping around. |
| Fat12Volume.NewEntryKeepsSound | fs/fat12.c:331-335 | A fresh entry in the first unused slot keeps the volume sound. |
| Fat12Volume.ClearKeepsSound | fs/fat12.c:340-348 | Clearing a file's chain keeps the volume sound and every other file's bytes, and frees exactly its clusters. |
| Fat12Volume.BuildStep | fs/fat12.c:358-375 | One more cluster taken, linked and filled. |
| Fat12Volume.BuildingKeepsSound | fs/fat12.c:352-379 | Wherever the writing stops, the volume is sound and every other file as it was; filed in its entry, the chain holds what was written. |
| Fat12Volume.OtherNames | fs/fat12.c:310-382 | Every other name reads as before. |
| Fat12Volume.SameName | fs/fat12.c:310-382 | The name reads as what was written if and only if its first byte is not the deleted mark and it is not a directory. |
| Fat12Volume.WroteData | fs/fat12.c:310-382 | The two together, for successful and for failed writes. |
| Fat12Leaks.Accounted | fs/fat12.c:84-93 | Every cluster is free, in a chain or leaked, and only one of these; the three numbers add up to the clusters of the volume. |
| Fat12Leaks.ClearLeaksNone | fs/fat12.c:340-348 | Freeing the old chain leaks none of it. |
| Fat12Leaks.BuildLeaks | fs/fat12.c:352-375 | The clusters of a chain under construction are leaked, every one, until an entry has the chain. |
| Fat12Leaks.WriteLeaks | fs/fat12.c:352-379 | How many clusters a write adds to those leaked; none comes back. |
| Fat12.FormattedIsSound | fs/fat12.c:150-183 | An image with equal table copies and an empty directory is a sound volume on which no entry owns a cluster. |
| Fat12.SlashesDropped | fs/fat12.c:242-247 | A path that is any run of slashes before a name that does not begin with one comes to that name. |
| Fat12.Volume.constructor | fs/fat12.c:150-183 | A driver over such an image starts valid. |
| Fat12.Volume.Mount | fs/fat12.c:150-183 | Refuses exactly unsigned and empty layouts and otherwise takes the layout of the boot sector; on a formatted image the volume starts valid. |
| Fat12.Volume.NextCluster | fs/fat12.c:54-63 | The link of a cluster. |
| Fat12.Volume.SetCluster | fs/fat12.c:66-81 | One link changes, in every copy. |
| Fat12.Volume.AllocCluster | fs/fat12.c:84-93 | Takes the lowest free cluster and ends its chain; 0 exactly when none is free. |
| Fat12.Volume.FindDirent | fs/fat12.c:224-239 | The first entry of that name before the end mark, 0 exactly when there is none. |
| Fat12.Volume.FindSlot | fs/fat12.c:321-329 | The first unused slot, 0 exactly when there is none. |
| Fat12.Volume.InitEntry | fs/fat12.c:331-335 | The slot becomes a fresh entry of that name. |
| Fat12.Volume.SetExtent | fs/fat12.c:377-379 | First cluster and size of one entry change. |
| Fat12.Volume.ReadFile | fs/fat12.c:266-299 | For every path that is any number of slashes before a non-empty name: as much of the file of that 8.3 name as fits the buffer, -1 exactly for no such file. So paths that differ in leading slashes only read the same. |
| Fat12.Volume.ReadChain | fs/fat12.c:280-298 | Copies the leading bytes of a chain and nothing else. |
| Fat12.Volume.PathToName | fs/fat12.c:242-247 | Drops leading slashes and nothing else. |
| Fat12.Volume.Place | fs/fat12.c:318-336 | The entry to write to: the one of that name or a fresh one; fails exactly when neither can be had. |
| Fat12.Volume.ClearEntry | fs/fat12.c:340-348 | Frees the chain of an entry and empties it. |
| Fat12.Volume.FreeChain | fs/fat12.c:340-346 | Clears every link of the chain and no other. |
| Fat12.Volume.CopyIn | fs/fat12.c:366-371 | The leading bytes of one cluster change. |
| Fat12.Volume.Fill | fs/fat12.c:352-375 | Builds a chain that holds the data; succeeds exactly when enough clusters are free, takes as many as the data need, and otherwise takes all there are. |
| Fat12.Volume.WriteFile | fs/fat12.c:310-382 | For every path that is any number of slashes before a non-empty name: writes the file of that 8.3 name and succeeds exactly when there is an entry to be had and enough clusters; keeps the volume sound and changes nothing but the target file. It leaks exactly all it could take when it fails for want of clusters, all it took when it succeeds under a name beginning with 0xE5, and otherwise nothing; so nothing is leaked if and only if it succeeds and the name is no such one or the data are empty, or fails with nothing to take. |
| Fat12.Volume.WriteThenRead | fs/fat12.c:266-382 | After a successful write a read gives back the same bytes, exactly unless the name begins with 0xE5 or is a directory's. |
| Fat12.ReadKnown | fs/fat12.c:150-299 | A volume whose bytes are all given, table, entry and two clusters, reads as its 600 bytes under a path with a slash and in lower case. |
| Fat12.LeakRun | fs/fat12.c:310-382 | On a mounted volume of two clusters, two writes of a byte under the name 0xE5 succeed and a third fails: no cluster is free, both are leaked, and no name is found. |
| Fat12.FullRun | fs/fat12.c:310-382 | On that volume a write of three clusters to any name fails and leaks both. |
| FileTable.StoreKeeps | fs/vfs.c:533-561 | A reference held by a call moves into a slot. |
| FileTable.LastDropKeeps | fs/vfs.c:506-531 | The last reference goes, and with it the file's end of the pipe. |
| FileTable.PipeKeeps | fs/vfs.c:1379-1394 | Two fresh files become the two ends of a fresh pipe. |
| FileTable.CountsAgain | fs/vfs.c:1753-1756 | A raised count and a new slot fit together exactly when some slot still leads to the file. |
| FileTable.OwnSlots | fs/vfs.c:533-561 | Descriptors are 0 to 31, each of each table with a slot of its own. |
| FileTable.Vfs.constructor | fs/vfs.c:409-426 | All tables empty. |
| FileTable.Vfs.FdAlloc | fs/vfs.c:533-541 | The lowest free descriptor, -1 exactly when there is none. |
| FileTable.Vfs.FdLookup | fs/vfs.c:543-549 | What a descriptor leads to. |
| FileTable.Vfs.FileAlloc | fs/vfs.c:428-441 | An unused file with one reference. |
| FileTable.Vfs.FileRelease | fs/vfs.c:506-531 | One reference less; the last one closes the file and its pipe end. |
| FileTable.Vfs.FdClose | fs/vfs.c:551-561 | Exactly that slot becomes empty. |
| FileTable.Vfs.PipeAlloc | fs/vfs.c:443-458 | An unused pipe, -1 exactly when there is none. |
| FileTable.Vfs.Open | fs/vfs.c:972-1109 | The lowest descriptor leads to a file that was not open; -1 exactly when the file system, the file pool or the table refuses, and then no slot has changed. |
| FileTable.Vfs.Close | fs/vfs.c:1121-1126 | Exactly that slot becomes empty and all counts fit. |
| FileTable.Vfs.Dup | fs/vfs.c:1312-1323 | The lowest descriptor leads to the same file; -1 exactly for a bad descriptor or a full table. |
| FileTable.Vfs.Dup2 | fs/vfs.c:1325-1338 | The new descriptor leads to the same file, whatever it led to before. |
| FileTable.Vfs.MakePipe | fs/vfs.c:1340-1401 | Two descriptors to the two ends of a fresh pipe; fails exactly when two slots, two files or a pipe are not to be had, and then no slot and no open file has changed. |
| FileTable.Vfs.ReservePair | fs/vfs.c:1353-1362 | Sets two slots aside, or none. |
| FileTable.Vfs.Connect | fs/vfs.c:1364-1394 | Pipe and files, exactly when they are to be had. |
| FileTable.Vfs.GiveUp | fs/vfs.c:1367-1377 | The way out gives everything back. |
| FileTable.Vfs.ProcessDup2 | fs/vfs.c:1736-1757 | The slot leads to the same file; the counts fit exactly unless a slot with the only reference was copied onto itself. |
| FileTable.DanglingRun | fs/vfs.c:1736-1757 | A file opened right after boot and its descriptor copied onto itself: the call succeeds and the counts do not fit. |
| FileTable.Vfs.Inherit | fs/vfs.c:1711-1734 | The new table equals the parent's, or is empty, whatever was in it. |
| FileTable.Vfs.CloseAll | fs/vfs.c:1763-1774 | All slots of the table become empty. |
| FileTable.Vfs.OpenExactly | fs/vfs.c:428-561 | Each file's count is the number of slots leading to it over all tables, it is open exactly when that is positive, and a pipe is in use exactly when one of its ends is open. |
| PipeRing.Taken | fs/vfs.c:1145-1157 | Advancing the read position takes the oldest byte. |
| PipeRing.Added | fs/vfs.c:1202-1214 | Writing at the write position adds a byte behind the others and overwrites none that is unread. |
| PipeRing.Pipe.constructor | fs/vfs.c:443-458 | An empty ring. |
| PipeRing.Pipe.TakeByte | fs/vfs.c:1151-1155 | The byte returned is the oldest. |
| PipeRing.Pipe.AddByte | fs/vfs.c:1208-1212 | The byte accepted is the newest. |
| PipeRing.Pipe.Read | fs/vfs.c:1145-1157 | All bytes ever returned are a prefix of all bytes ever accepted; moves the smaller of what is asked for and what is there, none on the wrong end. |
| PipeRing.Pipe.Write | fs/vfs.c:1202-1214 | Accepts the smaller of what is offered and the room in 4096 bytes, none without a reader or on the wrong end. |
| PipeRing.Pipe.Poll | fs/vfs.c:1482-1505 | Readable and writable are reported exactly when a read or write of any positive size would move a byte. |
| Paths.SegmentsJoin | fs/vfs.c:165-189 | Joining paths at a slash joins their names. |
| Paths.SegmentsOfRender | fs/vfs.c:254-273 | The path written spells exactly the names on the stack. |
| Paths.NormalizedIsPlain | fs/vfs.c:205-274 | A normalized path is absolute, fits its buffer and has no empty, "." or ".." name. |
| Paths.NormalizedTwice | fs/vfs.c:205-274 | Normalizing again, into a buffer of up to 256 characters as all callers have, changes nothing, whatever the working directory. |
| Paths.FromDirectory | fs/vfs.c:205-274 | A relative path comes to the names of the working directory followed by its own, with "." and ".." resolved. |
| Paths.FromRoot | fs/vfs.c:205-274 | An absolute path ignores the working directory. |
| Paths.OneStep | fs/vfs.c:226-274 | From a directory: a plain name goes one down, ".." one up and no higher than the root, "." nowhere. |
| Paths.TwoPaths | fs/vfs.c:205-274 | Going along one path and then along another is going along both at once. |
| Paths.TooLong | fs/vfs.c:165-189 | What does not fit 255 characters when joined is refused. |
| Paths.OneSegment | fs/vfs.c:229-239 | A name without slashes is one name, cut to 63 characters. |
| Paths.ResolveJoin | fs/vfs.c:226-252 | Names are resolved one after the other. |
| Paths.CopyJoin | fs/vfs.c:165-189 | The joined path, or failure exactly when it does not fit. |
| Paths.NextName | fs/vfs.c:229-239 | Cuts off the next name, at most 63 characters of it, and the slashes behind it. |
| Paths.SkipSlashes | fs/vfs.c:227-239 | Skips slashes and no name. |
| Paths.ResolvePath | fs/vfs.c:226-252 | The stack of names after "." and "..", or failure exactly at the 33rd name. |
| Paths.RenderPath | fs/vfs.c:254-273 | The names after slashes, or failure exactly when they do not fit. |
| Paths.NormalizePath | fs/vfs.c:205-274 | The resolution of working directory and path by names, which FromDirectory, FromRoot and OneStep tell in terms of names only. |
| Mounts.Lookup | fs/vfs.c:340-368 | The longest mount that covers the path by whole names, the first of them on a tie; none exactly when no mount covers it. |
| Mounts.SubpathInto | fs/vfs.c:370-387 | The path inside the mount, or failure exactly when it does not fit. |
| Mounts.SubpathRebuilds | fs/vfs.c:370-387 | Mount and path inside it give the absolute path back. |
| Mounts.CoversByNames | fs/vfs.c:340-368 | For normalized paths a mount covers exactly the paths whose names begin with its names. |
| ShmModel.CreateKeepsSound | ipc/shm.c:122-161 | A new region owns its frames alone. |
| ShmModel.AttachKeepsSound | ipc/shm.c:163-231 | A new attachment at the cursor overlaps none of its process's others, and the count fits. |
| ShmModel.ReserveKeepsSound | ipc/shm.c:163-231 | A failed attachment may use up addresses and nothing else. |
| ShmModel.DetachKeeps | ipc/shm.c:233-282 | Ending an attachment keeps the tables, also when the cursor is reset with the last one. |
| ShmModel.ReapKeeps | ipc/shm.c:96-120 | A region nobody is attached to gives its frames back and no others. |
| ShmModel.DropKeepsCore | ipc/shm.c:233-282 | A region's count stays the number of its attachments. |
| ShmModel.CleanedUp | ipc/shm.c:308-366 | What the loops of the cleanup make of every region. |
| ShmLaws.FirstCursorIs | ipc/shm.c:263-271 | Where a process's window starts. |
| ShmLaws.PagesTaken | ipc/shm.c:130-133 | As many pages as hold the size, and none when the 64-bit sum wraps around. |
| ShmLaws.CanAttachExactly | mm/vm_space.c:104-127 | A region can be attached exactly when its pages fit between the first page boundary from the cursor on and 0x80000000, and a slot is left. |
| ShmLaws.DetachMeans | ipc/shm.c:233-282 | The process has one attachment and its pages less and starts over with its last one; the region goes with its frames exactly when it waited for that and this was its last attachment. |
| ShmLaws.CleanupMeans | ipc/shm.c:308-366 | After the end of a process a region that it owned, or that waited, is gone exactly when nobody else is attached; the others count who is. |
| Shm.PagesForIsEnough | ipc/shm.c:130-133 | The pages of a region hold its size with less than a page to spare. |
| Shm.SharedMemory.constructor | ipc/shm.c:42-45 | No regions, no attachments. |
| Shm.SharedMemory.FindRegion | ipc/shm.c:47-54 | The region of that number, -1 exactly when there is none. |
| Shm.SharedMemory.FreeRegion | ipc/shm.c:56-63 | The first unused region slot. |
| Shm.SharedMemory.FindAttachment | ipc/shm.c:65-74 | The attachment of that process to that region, -1 exactly when there is none. |
| Shm.SharedMemory.FindByAddress | ipc/shm.c:76-85 | The attachment at that address, -1 exactly when there is none. |
| Shm.SharedMemory.FreeAttachment | ipc/shm.c:87-94 | The first unused attachment slot. |
| Shm.SharedMemory.Reap | ipc/shm.c:96-120 | A region that was to go and has no attachment goes, its frames to the allocator; otherwise nothing changes. |
| Shm.SharedMemory.Create | ipc/shm.c:122-161 | A new number and region over frames that were free; -1 exactly for no pages, no run of frames or no slot. |
| Shm.SharedMemory.Reserve | mm/vm_space.c:104-127 | The next page-aligned address of the window, 0 exactly when the range, as 64 bits hold its length, does not fit; the range itself then ends inside the window if and only if it has fewer than 2^52 pages. |
| Shm.SharedMemory.Attach | ipc/shm.c:163-231 | The address of the attachment, a new one or the one there was; 0 exactly when neither can be had, and then nothing but the cursor may have moved. |
| Shm.SharedMemory.Enter | ipc/shm.c:201-230 | The bookkeeping of a new attachment, undone when its pages cannot be mapped. |
| Shm.SharedMemory.Leave | ipc/shm.c:255-271 | Ends an attachment and settles the process's account. |
| Shm.SharedMemory.Detach | ipc/shm.c:233-282 | Exactly the attachment at that address ends; its region goes when it waited for that; all other frames stay. |
| Shm.SharedMemory.Destroy | ipc/shm.c:284-306 | Destroys exactly a region that nobody is attached to and gives its frames back. |
| Shm.SharedMemory.EndAll | ipc/shm.c:319-335 | All attachments of the process end, and the regions' counts follow. |
| Shm.SharedMemory.OrphanAll | ipc/shm.c:337-345 | The process's regions are to be destroyed. |
| Shm.SharedMemory.ReapAll | ipc/shm.c:355-365 | Every region that was to go and can go has gone. |
| Shm.SharedMemory.Cleanup | ipc/shm.c:308-366 | Every attachment of the process has ended, its account is back at the start, and each region is what the rules say; no frame is lost or given back twice. |
| Shm.SharedMemory.Guarantees | ipc/shm.c:96-366 | Between calls: counts are the numbers of attachments, attachments name live regions, one per process and region, ranges of a process lie in the window and are disjoint, and no frame of a region is free. |
| EventPolicy.EnqueueIsWithin | input/event.c:78-107 | What a queue holds after an event is an in-order part of what it held, followed by the event. |
| EventPolicy.EnqueueKeepsHighs | input/event.c:28-107 | A high-priority event is lost exactly when the queue holds 128 high-priority events and cannot coalesce. |
| EventPolicy.StepKeepsAccount | gfx/gui_srv.c:109-158 | Order, losses and counters after one more step. |
| EventPolicy.RunIsAccounted | input/event.c:15-125 | Over any run the events delivered and queued are an in-order part of those sent; missing high-priority events are exactly those displaced from a queue of 128 high-priority ones; enqueued = delivered + dropped + queued. |
| EventPolicy.NothingLost | input/event.c:28-107 | No high-priority event is missing exactly when that never happened. |
| EventPolicy.EnqueueTakes | input/event.c:28-107 | Below 128 events, the event joins the end, or takes the place of the newest when that is of the same window and kind and the kind is 1 or 8; a full queue that cannot coalesce loses exactly its oldest event of these kinds, or its oldest. |
| EventPolicy.StepCounts | gfx/gui_srv.c:109-158 | Each counter goes up exactly for what it is named after. |
| EventPolicy.EventArrives | gfx/gui_srv.c:109-191 | Over any run in which the queue is not full again when an event is put, an event keeps its place in the line of those delivered and waiting, or gives it to a later one of its window and kind; only kinds 1 (paint) and 8 (mouse move) do. |
| EventPolicy.LineKeeps | gfx/gui_srv.c:109-158 | Each step keeps that line, place by place. |
| EventQueues.ShiftAll | input/event.c:35-40 | The shifting loop closes the gap left by an event. |
| EventQueues.InputQueue.constructor | input/event.c:69-76 | An empty queue. |
| EventQueues.InputQueue.TryDropLow | input/event.c:28-46 | Drops the oldest low-priority event, exactly when there is one. |
| EventQueues.InputQueue.TryCoalesce | input/event.c:48-67 | Replaces the newest event exactly when both are of the same coalescing kind and window. |
| EventQueues.InputQueue.Put | input/event.c:78-107 | The ring does what the policy says; told without it: appended, or in the place of the newest of the same kind (1 or 8) and window, or for exactly one lost event of a full queue. |
| EventQueues.InputQueue.Get | input/event.c:109-125 | Takes the oldest event; nothing exactly when empty. |
| EventQueues.WindowQueue.constructor | gfx/gui_srv.c:428-437 | An empty queue and counters at zero. |
| EventQueues.WindowQueue.Post | gfx/gui_srv.c:109-158 | The ring and its counters take the policy's step; told without it as for InputQueue.Put. |
| EventQueues.WindowQueue.GetFor | gfx/gui_srv.c:722-749 | Only the owner gets events, oldest first; a delivered paint event clears the dirty mark. |
| EventQueues.WindowQueue.CountersBalance | gfx/gui_srv.c:109-158 | Up to 32 bits, enqueued = delivered + dropped + queued and dropped = low-priority + oldest. |
| Divider.NextBit | lib/compiler_rt.c:28-36 | One quotient bit; neither the shift nor the subtraction overflows. |
| Divider.UDivMod | lib/compiler_rt.c:6-41 | num = q * den + r with r < den for all 64-bit inputs; zero and zero for division by zero. |
| Divider.DividesOnce | lib/compiler_rt.c:68-83 | Truncating quotient and remainder are unique. |
| Divider.AbsU64 | lib/compiler_rt.c:60-66 | The magnitude, also of the smallest number. |
| Divider.DivS64 | lib/compiler_rt.c:68-74 | The quotient towards zero (C11, section 6.5.5) exactly unless the smallest number is divided by -1. |
| Divider.ModS64 | lib/compiler_rt.c:76-83 | The remainder, with the sign of the dividend, for all inputs. |
| KernelFormat.UintToBuf | lib/kprintf.c:35-51 | The digits of a number, most significant first. |
| KernelFormat.WriteDigits | lib/kprintf.c:41-45 | The digits come out last first. |
| KernelFormat.Reverse | lib/kprintf.c:46-49 | Turns them round in place. |
| KernelFormat.WordFits | lib/kprintf.c:35-51 | A 32-bit number needs at most the 32 characters of the scratch buffer in any base. |
| KernelFormat.Literal | lib/kprintf.c:85-154 | Text without directives prints as it is. |
| KernelFormat.ParseDirective | lib/kprintf.c:96-104 | Padding, width and letter of a directive. |
| KernelFormat.PutDirective | lib/kprintf.c:104-151 | What a directive prints. |
| KernelFormat.DoFmt | lib/kprintf.c:85-154 | The text that a format and its arguments stand for, cut to the buffer, and its full length. |
| KernelFormat.Ksprintf | lib/kprintf.c:199-213 | The same, with nothing written to a buffer of size 0. |
| FormatLaws.DigitsMean | lib/kprintf.c:35-51 | The digits, as any reader of numerals would evaluate them, come to the number; there is no zero in front. |
| FormatLaws.PrintsWord | lib/kprintf.c:115-135 | %u, %x and %X print a numeral of base ten or sixteen whose value is the argument, in small letters or capitals, padded on the left to the width. |
| FormatLaws.PrintsInt | lib/kprintf.c:106-114 | %d and %i print a minus sign exactly when the argument is negative, and a decimal numeral of its magnitude, padded between the two. |
| FormatLaws.PrintsText | lib/kprintf.c:136-146 | %s prints its text padded, %c its character, %% a percent sign, and any other letter itself behind one. |
| FormatLaws.OneDirective | lib/kprintf.c:85-154 | A directive of an optional zero, a width without zeros and a letter takes one argument, %% and unknown letters none, and the rest of the format follows. |
| FormatLaws.BufferHolds | lib/kprintf.c:199-213 | The buffer shows all of a shorter text, or its first characters but one. |
| ThemeConfig.ParseHex | syscall/syscall.c:96-125 | One to eight hexadecimal digits after an optional 0x, and nothing else. |
| ThemeConfig.ParseDecimal | syscall/syscall.c:127-149 | Decimal digits whose value is a 32-bit number, and nothing else. |
| ThemeConfig.HexRoundTrip | syscall/syscall.c:96-125 | Every 32-bit number printed with %08X is read back as itself. |
| ThemeLaws.HexExactly | syscall/syscall.c:96-125 | A colour is one to eight hexadecimal digits, small or capital, after 0x, 0X or nothing, and is worth its numeral. |
| ThemeLaws.DecimalExactly | syscall/syscall.c:127-149 | A version is a decimal numeral below 2^32 and is worth that. |
| ThemeLaws.SpacedSetting | syscall/syscall.c:378-388 | White space before a setting, behind it and around its equals sign does not matter. |
| ThemeLaws.SilentLine | syscall/syscall.c:378-385 | A comment, or a line without an equals sign, changes nothing. |
| ThemeLaws.LineEnds | syscall/syscall.c:367-376 | A line ends at a line feed, a carriage return, or any two of these. |
| ThemeLaws.NeedsAll | syscall/syscall.c:421-429 | What is read has lines for a version, which is 1, both colours, mode and path. |
| ThemeLaws.PathExactly | syscall/syscall.c:169-197 | A wallpaper path is empty, or absolute, below 128 characters, printable, without backslashes and without a name "..", names as path normalization has them. |
| ThemeLaws.ValidExactly | syscall/syscall.c:390-428 | A theme that can be read back: opaque colours, known mode and style, such a path, without white space at its ends, and one for a wallpaper. |
| ThemeLaws.Hex8Means | syscall/syscall.c:269-302 | A colour is written with eight capital digits that are worth it. |
| ThemeLaws.WholeText | syscall/syscall.c:269-302 | The text of a theme, letter by letter. |
| ThemeText.TrimWs | syscall/syscall.c:80-94 | Without white space at either end. |
| ThemeText.ValidatePath | syscall/syscall.c:169-197 | Exactly absolute, printable paths without backslashes and ".." names that fit, and the empty one. |
| ThemeText.WrittenIsLines | syscall/syscall.c:269-302 | The formatted text is the six lines of the theme. |
| ThemeReader.AssignOne | syscall/syscall.c:390-418 | One setting, checked as it is read. |
| ThemeReader.ParseLine | syscall/syscall.c:378-418 | One line; comments and lines without a setting say nothing. |
| ThemeReader.TakeLine | syscall/syscall.c:367-376 | Cuts off a line at one or two end-of-line characters. |
| ThemeReader.ReadConfig | syscall/syscall.c:320-435 | The theme that the lines of the text spell, or failure. |
| ThemeReader.WriteConfig | syscall/syscall.c:269-302 | The text of a theme, or failure exactly when it does not fit 511 characters. |
| ThemeReader.WrittenFits | syscall/syscall.c:269-302 | The text of any theme fits. |
| ThemeReader.ReadIsValid | syscall/syscall.c:320-435 | Whatever the text, a theme read from it is valid. |
| ThemeReader.RoundTrip | syscall/syscall.c:269-435 | Reading what was written gives the theme back, but for its flags, exactly when the theme is valid. |

## Left out

- Device and machine code (port I/O, drivers, TLB flushes, CR3 loads, interrupt frames), drawing and applications, `fs/fat32.c`, procfs, sysfs, memfs, networking: either their behaviour lies outside the code or they would add easy members only.
- VmmX64.Vmm.MapPages: not for ranges in the kernel half nor for a loader's root with entries in its user half, nor for page counts of 2^52 and more, for which the range check accepts ranges that do not fit (SpanCheckWraps); the same holds for unmap, protect and query. Huge pages do not occur in tables made by the kernel's own mapping calls.
- VmmX64.Vmm.CreateAddressSpace: the loader's kernel-half tables are shared as they are; what the kernel half translates to is not modelled. `vmm_clone_address_space` and the legacy wrappers are not modelled.
- Pmm.Allocator.AllocPages: not for counts within 2^24 of 2^64, where the sum in the search loop would wrap. The boot protocols' record formats and the entries without a memory map are left out; the constructor takes the ranges they describe.
- Tlsf.Heap.Malloc: which of its outcomes a call has is stated for every request; nothing is said about the heap after a search outside the table, a block cut shorter than the smallest payload or a wild split, but that the wild split's footer lies outside the memory, because there the source reads or writes outside the table or the block.
- Tlsf.Heap.AddPool: for regions of whole 8-byte words in a memory below 2^25 bytes. Memory is modelled as 8-byte words, so that a header's 32-bit size field takes one word with its padding, and list links are word indices. `tlsf_calloc` and `tlsf_realloc` are left out.
- Process.Scheduler.WaitPass: one pass under one hold of the lock; the loop around it is the run of steps. The child list is a sequence, newest child first, instead of intrusive links with an array of the first 32 beside it.
- SchedLaws.ExitStatusArrives: for runs of allowed steps in which the process that has ended makes no waitpid call of its own; a dead process is current only until the next tick.
- Process.Scheduler.SpawnKernel: with memory for the new process at hand; failures after the slot is taken, the wrap-around of the pid counter, exec, process groups as targets of kill, and the thread record that mirrors the process's fields are not modelled. Repairing a damaged stack frame at a tick is left out, and so is calling a user handler, which happens after the lock is released.
- Process.Scheduler.MarkZombie: without the closing of descriptors and detaching of shared memory, which are FileTable.Vfs.CloseAll and Shm.SharedMemory.Cleanup.
- Fat12.Volume.Mount: what a refused or half-read boot sector leaves in the driver's variables is not modelled, and that a layout fits its image is proved for images below 2^31 bytes (BootSectorFits), for which the return value of a read cannot wrap either. Null pointers, listing and stat are left out.
- FileTable.Vfs.Open: whether path, mount and file system let the file be opened is a parameter; buffered contents, seeking, devices and the file systems behind the descriptors are not modelled. Reserved slots hold a mark of their own.
- PipeRing.Pipe.Read: a call is one step; polling and blocking loops above it are left out.
- Paths.NormalizePath: strings end where their terminating zero stands; the working directory is a parameter.
- Mounts.Lookup: over a given mount table; registering mounts is left out.
- Shm.SharedMemory.Attach: at whole-call granularity, without what other calls could see between its two holds of the lock; whether the pages could be mapped is a parameter. The same holds for Detach and Cleanup. The wrap-around of the region counter and the count of mapped pages are left out.
- EventQueues.WindowQueue.Post: without the totals over all windows and the logging of drops; the search for the window of a handle is left out.
- Divider.DivS64: negating the smallest number, undefined in C, is read as wrapping around.
- KernelFormat.ParseDirective: the width is unbounded here; in the source it is an int, which a long row of digits makes overflow (lib/kprintf.c:100-102). The same holds for KernelFormat.DoFmt.
- KernelFormat.DoFmt: a format that ends inside a directive, where the source reads past the terminating zero, prints nothing here; missing or mismatched arguments, undefined in C, read as zero and a null pointer; `%d` of the smallest number is read as wrapping around.
- ThemeReader.ReadConfig: on the text of the file, with the lines as slices of it instead of being cut in place by zeros; opening, reading and writing files and the fallback path are left out.
